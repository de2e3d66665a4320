/**
 * `resolve_and_filter_dict`, the last step of building the section tree.
 * Every child title that is also a root title holding a dict is replaced by
 * that dict, and only the root titles with a one-part numbering (or none)
 * are kept.
 *
 * The Python code shares dict objects: a replaced child IS the root dict,
 * and the later replacements inside that dict show through every reference.
 * The JSON file written from the result holds the fully unfolded tree, or
 * fails with "Circular reference detected" when a dict contains itself.
 * This module models that unfolded tree (`Section`) and the failure.
 */
module Resolve {
  import opened Results
  import opened Text
  import opened OrderedDict
  import opened Levels

  /** A node of the resolved tree: a section text, or a dict of titles to nodes. */
  datatype Section = Leaf(text: string) | Node(children: Dict<Section>)

  const CircularError := "Circular reference detected"

  /** The dict held under `k`, if the value there is a dict. */
  function GroupOf(d: Dict<Level>, k: string): Option<Dict<string>>
  {
    match Get(d, k)
    case Some(v) => if v.Group? then Some(v.children) else None
    case None => None
  }

  // ---------------------------------------------------------------------
  // flatten_dict
  // ---------------------------------------------------------------------

  /** One assignment of `flatten_dict`: a new key is added, a text is overwritten only by a dict. */
  function FlatPut(flat: Dict<Level>, k: string, v: Level): Dict<Level>
  {
    match Get(flat, k)
    case None => Put(flat, k, v)
    case Some(prev) => if prev.Text? && v.Group? then Put(flat, k, v) else flat
  }

  /** `flatten_dict` on the children of a dict entry (all texts). */
  function FlattenTexts(flat: Dict<Level>, ch: Dict<string>): Dict<Level>
    decreases |ch|
  {
    if ch == [] then flat else FlattenTexts(FlatPut(flat, ch[0].0, Text(ch[0].1)), ch[1..])
  }

  /** `flatten_dict` on the root: every entry, and after a dict entry its children. */
  function Flatten(flat: Dict<Level>, d: Dict<Level>): Dict<Level>
    decreases |d|
  {
    if d == [] then flat
    else
      var flat1 := FlatPut(flat, d[0].0, d[0].1);
      var flat2 := match d[0].1 case Group(ch) => FlattenTexts(flat1, ch) case Text(_) => flat1;
      Flatten(flat2, d[1..])
  }

  /** The reference mapping built from the restructured dict. */
  function Flattened(d: Dict<Level>): Dict<Level>
  {
    Flatten([], d)
  }

  /** Step 1 of `resolve_and_filter_dict`. */
  method FlattenDict(d: Dict<Level>) returns (flat: Dict<Level>)
    ensures flat == Flattened(d)
  {
    flat := [];
    for i := 0 to |d|
      invariant Flatten(flat, d[i..]) == Flattened(d)
    {
      var (k, v) := d[i];
      var current := Get(flat, k);
      if current.None? || (current.value.Text? && v.Group?) {
        flat := Put(flat, k, v);
      }
      if v.Group? {
        var ch := v.children;
        ghost var before := flat;
        for j := 0 to |ch|
          invariant FlattenTexts(flat, ch[j..]) == FlattenTexts(before, ch)
        {
          var c := Get(flat, ch[j].0);
          if c.None? {
            flat := Put(flat, ch[j].0, Text(ch[j].1));
          }
        }
      }
    }
  }

  /** Text children never add, drop or change a dict entry of the mapping. */
  lemma {:induction false} FlattenTextsGroups(flat: Dict<Level>, ch: Dict<string>, k: string)
    ensures GroupOf(FlattenTexts(flat, ch), k) == GroupOf(flat, k)
    decreases |ch|
  {
    if ch != [] {
      FlattenTextsGroups(FlatPut(flat, ch[0].0, Text(ch[0].1)), ch[1..], k);
    }
  }

  lemma {:induction false} FlattenGroups(flat: Dict<Level>, d: Dict<Level>, k: string)
    requires UniqueKeys(d)
    requires forall t :: t in Keys(d) ==> GroupOf(flat, t).None?
    ensures GroupOf(Flatten(flat, d), k) == if k in Keys(d) then GroupOf(d, k) else GroupOf(flat, k)
    decreases |d|
  {
    if d != [] {
      KeysCons(d);
      var flat1 := FlatPut(flat, d[0].0, d[0].1);
      var flat2 := match d[0].1 case Group(ch) => FlattenTexts(flat1, ch) case Text(_) => flat1;
      FlatPutGroups(flat, d[0].0, d[0].1);
      forall t ensures GroupOf(flat2, t) == GroupOf(flat1, t) {
        if d[0].1.Group? {
          FlattenTextsGroups(flat1, d[0].1.children, t);
        }
      }
      GetCons(d, k);
      FlattenGroups(flat2, d[1..], k);
    }
  }

  /** One assignment of `flatten_dict` to a key that holds no dict yet: only that key can gain one. */
  lemma FlatPutGroups(flat: Dict<Level>, k: string, v: Level)
    requires GroupOf(flat, k).None?
    ensures forall t :: GroupOf(FlatPut(flat, k, v), t) ==
                        if t == k then (if v.Group? then Some(v.children) else None) else GroupOf(flat, t)
  {
  }

  /**
   * The reference mapping holds a dict under exactly the root titles that
   * hold one, and it is that same dict.
   */
  lemma FlattenedGroups(d: Dict<Level>, k: string)
    requires UniqueKeys(d)
    ensures GroupOf(Flattened(d), k) == GroupOf(d, k)
  {
    FlattenGroups([], d, k);
  }

  // ---------------------------------------------------------------------
  // replace_strings_with_dicts, as the tree it leaves
  // ---------------------------------------------------------------------

  function KeySet(d: Dict<Level>): set<string>
  {
    set k | k in Keys(d)
  }

  lemma GroupKeyIn(flat: Dict<Level>, c: string, path: set<string>)
    requires GroupOf(flat, c).Some? && c !in path
    ensures |KeySet(flat) - (path + {c})| < |KeySet(flat) - path|
  {
    assert c in KeySet(flat) - path;
    assert KeySet(flat) - (path + {c}) == (KeySet(flat) - path) - {c};
  }

  /**
   * A child once it is replaced by the dict of the mapping its title names,
   * itself unfolded; `path` holds the titles of the dicts that contain it.
   */
  function UnfoldChild(flat: Dict<Level>, c: string, text: string, path: set<string>): Result<Section>
    decreases |KeySet(flat) - path|, 0
  {
    match GroupOf(flat, c)
    case None => Ok(Leaf(text))
    case Some(g) =>
      if c in path then Err(CircularError)
      else
        assert |KeySet(flat) - (path + {c})| < |KeySet(flat) - path| by {
          GroupKeyIn(flat, c, path);
        }
        match UnfoldChildren(flat, g, path + {c})
        case Err(m) => Err(m)
        case Ok(sub) => Ok(Node(sub))
  }

  /** The children of a dict, each unfolded in turn. */
  function UnfoldChildren(flat: Dict<Level>, ch: Dict<string>, path: set<string>): Result<Dict<Section>>
    decreases |KeySet(flat) - path|, |ch|
  {
    if ch == [] then Ok([])
    else
      match UnfoldChild(flat, ch[0].0, ch[0].1, path)
      case Err(m) => Err(m)
      case Ok(node) =>
        match UnfoldChildren(flat, ch[1..], path)
        case Err(m) => Err(m)
        case Ok(rest) =>
          Ok([(ch[0].0, node)] + rest)
  }

  /** A root entry of the resolved tree. */
  function UnfoldRoot(flat: Dict<Level>, k: string, v: Level): Result<Section>
  {
    var g := match v case Group(ch) => Some(ch) case Text(_) => GroupOf(flat, k);
    match g
    case None => Ok(Leaf(v.text))
    case Some(ch) =>
      match UnfoldChildren(flat, ch, {k})
      case Err(m) => Err(m)
      case Ok(sub) => Ok(Node(sub))
  }

  function UnfoldRoots(flat: Dict<Level>, roots: Dict<Level>): Result<Dict<Section>>
    decreases |roots|
  {
    if roots == [] then Ok([])
    else
      match UnfoldRoot(flat, roots[0].0, roots[0].1)
      case Err(m) => Err(m)
      case Ok(node) =>
        match UnfoldRoots(flat, roots[1..])
        case Err(m) => Err(m)
        case Ok(rest) =>
          Ok([(roots[0].0, node)] + rest)
  }

  /** Children that name no dict of the mapping stay texts. */
  function Leaves(ch: Dict<string>): (r: Dict<Section>)
    ensures |r| == |ch| && forall i :: 0 <= i < |ch| ==> r[i] == (ch[i].0, Leaf(ch[i].1))
  {
    if ch == [] then []
    else [(ch[0].0, Leaf(ch[0].1))] + Leaves(ch[1..])
  }

  /** Unfolding keeps the titles of a dict, in order. */
  lemma {:induction false} UnfoldChildrenKeys(flat: Dict<Level>, ch: Dict<string>, path: set<string>)
    requires UnfoldChildren(flat, ch, path).Ok?
    ensures Keys(UnfoldChildren(flat, ch, path).value) == Keys(ch)
    decreases |ch|
  {
    if ch != [] {
      var node := UnfoldChild(flat, ch[0].0, ch[0].1, path).value;
      var rest := UnfoldChildren(flat, ch[1..], path).value;
      UnfoldChildrenKeys(flat, ch[1..], path);
      KeysCons(ch);
      KeysConcat([(ch[0].0, node)], rest);
    }
  }

  lemma {:induction false} UnfoldRootsKeys(flat: Dict<Level>, roots: Dict<Level>)
    requires UnfoldRoots(flat, roots).Ok?
    ensures Keys(UnfoldRoots(flat, roots).value) == Keys(roots)
    decreases |roots|
  {
    if roots != [] {
      var node := UnfoldRoot(flat, roots[0].0, roots[0].1).value;
      var rest := UnfoldRoots(flat, roots[1..]).value;
      UnfoldRootsKeys(flat, roots[1..]);
      KeysCons(roots);
      KeysConcat([(roots[0].0, node)], rest);
    }
  }

  /** Without references to dicts nothing is replaced. */
  lemma {:induction false} UnfoldPlain(flat: Dict<Level>, ch: Dict<string>, path: set<string>)
    requires forall c :: c in Keys(ch) ==> GroupOf(flat, c).None?
    ensures UnfoldChildren(flat, ch, path) == Ok(Leaves(ch))
    decreases |ch|
  {
    if ch != [] {
      KeysCons(ch);
      UnfoldPlain(flat, ch[1..], path);
    }
  }

  /** A dict that names one of the dicts containing it (or itself) cannot be unfolded. */
  lemma {:induction false} UnfoldCycle(flat: Dict<Level>, ch: Dict<string>, path: set<string>, c: string)
    requires c in Keys(ch) && c in path && GroupOf(flat, c).Some?
    ensures UnfoldChildren(flat, ch, path).Err?
    decreases |ch|
  {
    KeysCons(ch);
    if c != ch[0].0 {
      UnfoldCycle(flat, ch[1..], path, c);
    }
  }

  /**
   * Where unfolding succeeds, each child keeps its text unless it names a
   * dict of the mapping, in which case it holds that dict's titles.
   */
  lemma {:induction false} UnfoldChildrenLookup(flat: Dict<Level>, ch: Dict<string>, path: set<string>, c: string)
    requires UniqueKeys(ch) && c in Keys(ch)
    requires UnfoldChildren(flat, ch, path).Ok?
    ensures var r := UnfoldChildren(flat, ch, path).value;
      match GroupOf(flat, c)
      case None => Get(r, c) == Some(Leaf(Get(ch, c).value))
      case Some(g) => Get(r, c).Some? && Get(r, c).value.Node? && Keys(Get(r, c).value.children) == Keys(g)
    decreases |ch|
  {
    KeysCons(ch);
    var node := UnfoldChild(flat, ch[0].0, ch[0].1, path).value;
    var rest := UnfoldChildren(flat, ch[1..], path).value;
    var r := [(ch[0].0, node)] + rest;
    assert UnfoldChildren(flat, ch, path).value == r;
    assert r[1..] == rest;
    GetCons(r, c);
    GetCons(ch, c);
    if c != ch[0].0 {
      UnfoldChildrenLookup(flat, ch[1..], path, c);
    } else if GroupOf(flat, c).Some? && c !in path {
      UnfoldChildrenKeys(flat, GroupOf(flat, c).value, path + {c});
    }
  }

  // ---------------------------------------------------------------------
  // filter_root_keys
  // ---------------------------------------------------------------------

  /** `re.match(r'\d+', key)` */
  predicate LeadingNumber(key: string)
  {
    key != [] && IsDigit(key[0])
  }

  /** `key[..i]` is a run of digits followed by a dot. */
  predicate NumberDotAt(key: string, i: nat)
  {
    0 < i < |key| && AllDigits(key[..i]) && key[i] == '.'
  }

  /** `re.match(r'\d+(\.\d+)+', key)` */
  predicate MultiPartNumber(key: string)
  {
    exists i: nat :: i + 1 < |key| && NumberDotAt(key, i) && IsDigit(key[i + 1])
  }

  /** `re.match(r'\d+\.$', key)`: a bare number, `$` also matching before a final newline. */
  predicate BareNumber(key: string)
  {
    exists i: nat :: i < |key| && NumberDotAt(key, i) && (i + 1 == |key| || (i + 2 == |key| && key[i + 1] == '\n'))
  }

  /** `re.match(r'^\d+\..*$', key)`: a number and a dot, then one line (a final newline allowed). */
  predicate NumberedLine(key: string)
  {
    exists i: nat :: i < |key| && NumberDotAt(key, i) && forall j :: i < j < |key| - 1 ==> key[j] != '\n'
  }

  /** `re.match(r'\d+\.\d+\.', key)` */
  predicate TwoPartNumber(key: string)
  {
    exists i: nat, j: nat :: i + 1 < j < |key| && NumberDotAt(key, i) && AllDigits(key[i + 1..j]) && key[j] == '.'
  }

  /** The test of `filter_root_keys`, branch by branch. */
  predicate KeepRootKey(key: string)
  {
    && !MultiPartNumber(key)
    && (BareNumber(key) || !LeadingNumber(key) || (NumberedLine(key) && !TwoPartNumber(key)))
  }

  /** A run of digits followed by a dot ends where the leading run of digits ends. */
  lemma NumberDotIsRun(key: string, i: nat)
    requires NumberDotAt(key, i)
    ensures i == DigitsEnd(key, 0)
  {
  }

  /** Where the leading digits are followed by a dot, that dot is the one every pattern looks for. */
  lemma NumberDotAtEnd(key: string)
    requires LeadingNumber(key)
    ensures var e := DigitsEnd(key, 0);
      e < |key| && key[e] == '.' ==> NumberDotAt(key, e)
  {
    var e := DigitsEnd(key, 0);
    assert forall k :: 0 <= k < e ==> key[..e][k] == key[k];
  }

  lemma MultiPartNumberAt(key: string)
    requires LeadingNumber(key)
    ensures var e := DigitsEnd(key, 0);
      MultiPartNumber(key) <==> e + 1 < |key| && key[e] == '.' && IsDigit(key[e + 1])
  {
    NumberDotAtEnd(key);
    if MultiPartNumber(key) {
      var i: nat :| i + 1 < |key| && NumberDotAt(key, i) && IsDigit(key[i + 1]);
      NumberDotIsRun(key, i);
    }
  }

  lemma BareNumberAt(key: string)
    requires LeadingNumber(key)
    ensures var e := DigitsEnd(key, 0);
      BareNumber(key) <==> e < |key| && key[e] == '.' && (e + 1 == |key| || (e + 2 == |key| && key[e + 1] == '\n'))
  {
    NumberDotAtEnd(key);
    if BareNumber(key) {
      var i: nat :| i < |key| && NumberDotAt(key, i) && (i + 1 == |key| || (i + 2 == |key| && key[i + 1] == '\n'));
      NumberDotIsRun(key, i);
    }
  }

  lemma NumberedLineAt(key: string)
    requires LeadingNumber(key)
    ensures var e := DigitsEnd(key, 0);
      NumberedLine(key) <==> e < |key| && key[e] == '.' && forall j :: e < j < |key| - 1 ==> key[j] != '\n'
  {
    NumberDotAtEnd(key);
    if NumberedLine(key) {
      var i: nat :| i < |key| && NumberDotAt(key, i) && forall j :: i < j < |key| - 1 ==> key[j] != '\n';
      NumberDotIsRun(key, i);
    }
  }

  /** Every title the `\d+\.\d+\.` test catches is already caught by the `\d+(\.\d+)+` test. */
  lemma TwoPartIsMultiPart(key: string)
    ensures TwoPartNumber(key) ==> MultiPartNumber(key)
  {
    if TwoPartNumber(key) {
      var i: nat, j: nat :| i + 1 < j < |key| && NumberDotAt(key, i) && AllDigits(key[i + 1..j]) && key[j] == '.';
      assert key[i + 1..j][0] == key[i + 1];
    }
  }

  lemma MultiPartIsLeading(key: string)
    ensures MultiPartNumber(key) ==> LeadingNumber(key)
  {
    if MultiPartNumber(key) {
      var i: nat :| i + 1 < |key| && NumberDotAt(key, i) && IsDigit(key[i + 1]);
      assert key[..i][0] == key[0];
    }
  }

  /**
   * A root title is kept exactly when it does not start with a digit, or
   * when its leading number is followed by a dot that is not followed by
   * another digit and the rest of the title is one line.
   */
  lemma KeepRootKeySpec(key: string)
    ensures KeepRootKey(key) <==>
      !LeadingNumber(key) ||
      var e := DigitsEnd(key, 0);
      && e < |key| && key[e] == '.'
      && (e + 1 == |key| || !IsDigit(key[e + 1]))
      && forall j :: e < j < |key| - 1 ==> key[j] != '\n'
  {
    TwoPartIsMultiPart(key);
    MultiPartIsLeading(key);
    if LeadingNumber(key) {
      MultiPartNumberAt(key);
      BareNumberAt(key);
      NumberedLineAt(key);
    }
  }

  /** `filter_root_keys`: the root entries whose titles pass the test, in order. */
  function FilterRoots(d: Dict<Level>): Dict<Level>
  {
    if d == [] then []
    else
      var rest := FilterRoots(d[..|d| - 1]);
      if KeepRootKey(d[|d| - 1].0) then Put(rest, d[|d| - 1].0, d[|d| - 1].1) else rest
  }

  /** A title is looked up in the filtered dict as in the original when it is kept, and is absent otherwise. */
  lemma {:induction false} FilterRootsLookup(d: Dict<Level>, k: string)
    requires UniqueKeys(d)
    ensures Get(FilterRoots(d), k) == if KeepRootKey(k) then Get(d, k) else None
  {
    if d != [] {
      var init := d[..|d| - 1];
      UniqueInit(d);
      FilterRootsLookup(init, k);
      GetSnoc(init, d[|d| - 1].0, d[|d| - 1].1, k);
    }
  }

  method FilterRootKeys(d: Dict<Level>) returns (r: Dict<Level>)
    ensures r == FilterRoots(d)
  {
    r := [];
    for i := 0 to |d|
      invariant r == FilterRoots(d[..i])
    {
      assert d[..i + 1][..i] == d[..i];
      if KeepRootKey(d[i].0) {
        r := Put(r, d[i].0, d[i].1);
      }
    }
    assert d[..|d|] == d;
  }

  // ---------------------------------------------------------------------
  // resolve_and_filter_dict
  // ---------------------------------------------------------------------

  /** The tree written for the restructured dict, or the error the circular references raise. */
  function Resolved(d: Dict<Level>): Result<Dict<Section>>
  {
    UnfoldRoots(Flattened(d), FilterRoots(d))
  }

  method ResolveAndFilter(d: Dict<Level>) returns (r: Result<Dict<Section>>)
    ensures r == Resolved(d)
  {
    var flat := FlattenDict(d);
    var filtered := FilterRootKeys(d);
    r := UnfoldRoots(flat, filtered);
  }

  /** The resolved tree has the kept root titles, in order. */
  lemma ResolvedKeys(d: Dict<Level>)
    requires Resolved(d).Ok?
    ensures Keys(Resolved(d).value) == Keys(FilterRoots(d))
  {
    UnfoldRootsKeys(Flattened(d), FilterRoots(d));
  }

  /** A root dict that names itself among its children makes the tree circular. */
  lemma ResolvedSelfReference(d: Dict<Level>, k: string, ch: Dict<string>)
    requires UniqueKeys(d) && KeepRootKey(k)
    requires Get(d, k) == Some(Group(ch)) && k in Keys(ch)
    ensures Resolved(d).Err?
  {
    FlattenedGroups(d, k);
    FilterRootsLookup(d, k);
    var flat := Flattened(d);
    var roots := FilterRoots(d);
    UnfoldCycle(flat, ch, {k}, k);
    UnfoldRootsError(flat, roots, k);
  }

  lemma {:induction false} UnfoldRootsError(flat: Dict<Level>, roots: Dict<Level>, k: string)
    requires Get(roots, k).Some? && UnfoldRoot(flat, k, Get(roots, k).value).Err?
    ensures UnfoldRoots(flat, roots).Err?
    decreases |roots|
  {
    if roots[0].0 != k {
      UnfoldRootsError(flat, roots[1..], k);
    }
  }
}
