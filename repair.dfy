/**
 * `find_and_replace_numberings`: extract the numbering of every key, walk the
 * list flagging numberings that are not legal successors of the last accepted
 * one, renumber each flagged entry from its numbered neighbours, and rebuild
 * the dictionary with the corrected keys.
 */
module NumberingRepair {
  import opened Results
  import opened Text
  import opened Numbering
  import opened OrderedDict

  /** Every extracted numbering is either empty (no numbering) or a numbering token. */
  predicate WellFormed(nums: seq<string>)
  {
    forall i :: 0 <= i < |nums| ==> nums[i] == "" || IsNumberingToken(nums[i])
  }

  /** The first word of a key when `word.replace('.', '').isdigit()`, else `""`. */
  function KeyNumbering(key: string): (r: string)
    ensures r == "" || IsNumberingToken(r)
    ensures r != "" ==> r == SplitOnce(key, ' ').0
  {
    var w := SplitOnce(key, ' ').0;
    if IsNumberingToken(w) then w else ""
  }

  function Numberings<V>(data: Dict<V>): (nums: seq<string>)
    ensures |nums| == |data| && WellFormed(nums)
  {
    seq(|data|, i requires 0 <= i < |data| => KeyNumbering(data[i].0))
  }

  // ---------------------------------------------------------------------
  // The validity walk
  // ---------------------------------------------------------------------

  function Prepend(j: nat, r: Result<seq<nat>>): Result<seq<nat>>
  {
    match r
    case Err(e) => Err(e)
    case Ok(v) => Ok([j] + v)
  }

  function PrependAll(xs: seq<nat>, r: Result<seq<nat>>): Result<seq<nat>>
  {
    match r
    case Err(e) => Err(e)
    case Ok(v) => Ok(xs + v)
  }

  lemma PrependAllStep(xs: seq<nat>, j: nat, r: Result<seq<nat>>)
    ensures PrependAll(xs, Prepend(j, r)) == PrependAll(xs + [j], r)
  {
    if r.Ok? {
      assert xs + ([j] + r.value) == (xs + [j]) + r.value;
    }
  }

  predicate Increasing(xs: seq<nat>)
  {
    forall a, b :: 0 <= a < b < |xs| ==> xs[a] < xs[b]
  }

  /**
   * A successor generator, as `generate_next_numberings` is one: the list of
   * numberings that may follow a numbering, or the error it raises. The walk
   * below is stated for any generator and run with `NextNumberings`.
   */
  type Successors = string -> Result<seq<string>>

  /**
   * The flags the walk raises from index `j` on, given the last accepted
   * numbering `anchor`: blanks are skipped, the first numbering becomes the
   * anchor, a successor of the anchor becomes the new anchor and any other
   * numbering is flagged. The successor list is only computed once an anchor
   * and a later numbering exist, and an error from it ends the walk.
   */
  function WalkFrom(next: Successors, nums: seq<string>, anchor: Option<string>, j: nat): Result<seq<nat>>
    decreases |nums| - j
  {
    if j >= |nums| then Ok([])
    else if nums[j] == "" then WalkFrom(next, nums, anchor, j + 1)
    else if anchor.None? then WalkFrom(next, nums, Some(nums[j]), j + 1)
    else
      match next(anchor.value)
      case Err(e) => Err(e)
      case Ok(gen) =>
        if nums[j] in gen then WalkFrom(next, nums, Some(nums[j]), j + 1)
        else Prepend(j, WalkFrom(next, nums, anchor, j + 1))
  }

  /** The flags are strictly increasing indices at or after `j`. */
  lemma {:induction false} WalkFromIncreasing(next: Successors, nums: seq<string>, anchor: Option<string>, j: nat)
    ensures var r := WalkFrom(next, nums, anchor, j);
      r.Ok? ==> Increasing(r.value) && forall a :: 0 <= a < |r.value| ==> j <= r.value[a] < |nums|
    decreases |nums| - j
  {
    if j < |nums| {
      WalkFromIncreasing(next, nums, anchor, j + 1);
      if nums[j] != "" {
        WalkFromIncreasing(next, nums, Some(nums[j]), j + 1);
      }
    }
  }

  /**
   * The nested `while` loops over `i` and `j`. The flags come out strictly
   * increasing, so the `sorted(set(...))` that follows leaves them as they are.
   */
  method Walk(next: Successors, nums: seq<string>) returns (r: Result<seq<nat>>)
    ensures r == WalkFrom(next, nums, None, 0)
    ensures r.Ok? ==> Increasing(r.value)
  {
    var flagged: seq<nat> := [];
    var i := 0;
    assert PrependAll(flagged, WalkFrom(next, nums, None, 0)) == WalkFrom(next, nums, None, 0) by {
      if WalkFrom(next, nums, None, 0).Ok? {
        assert [] + WalkFrom(next, nums, None, 0).value == WalkFrom(next, nums, None, 0).value;
      }
    }
    while i < |nums| - 1
      invariant 0 <= i <= |nums|
      invariant WalkFrom(next, nums, None, 0) == PrependAll(flagged, WalkFrom(next, nums, None, i))
      decreases |nums| - i
    {
      var current := nums[i];
      if current == "" {
        i := i + 1;
        continue;
      }
      var logicalFound := false;
      var j := i + 1;
      while j < |nums|
        invariant i < j <= |nums|
        invariant !logicalFound
        invariant WalkFrom(next, nums, None, 0) == PrependAll(flagged, WalkFrom(next, nums, Some(current), j))
        decreases |nums| - j
      {
        var nextNumbering := nums[j];
        if nextNumbering == "" {
          j := j + 1;
          continue;
        }
        var generated := next(current);
        if generated.Err? {
          return Err(generated.msg);
        }
        if nextNumbering !in generated.value {
          PrependAllStep(flagged, j, WalkFrom(next, nums, Some(current), j + 1));
          flagged := flagged + [j];
          j := j + 1;
        } else {
          logicalFound := true;
          assert WalkFrom(next, nums, Some(current), j) == WalkFrom(next, nums, None, j);
          i := j - 1;
          break;
        }
      }
      if !logicalFound {
        assert flagged + [] == flagged;
        WalkFromIncreasing(next, nums, None, 0);
        return Ok(flagged);
      }
      i := i + 1;
    }
    assert flagged + [] == flagged;
    WalkFromIncreasing(next, nums, None, 0);
    return Ok(flagged);
  }

  /** Whether `x` is among the successors of the accepted numbering `a`. */
  predicate Accepts(next: Successors, a: string, x: string)
  {
    next(a).Ok? && x in next(a).value
  }

  /** The last accepted numbering once the walk has passed `nums[..k]`. */
  function AnchorBefore(next: Successors, nums: seq<string>, k: nat): Option<string>
    requires k <= |nums|
  {
    if k == 0 then None
    else
      var a := AnchorBefore(next, nums, k - 1);
      var x := nums[k - 1];
      if x == "" then a
      else if a.None? then Some(x)
      else if Accepts(next, a.value, x) then Some(x)
      else a
  }

  /** Index `k` holds a numbering that is not a successor of the last accepted one. */
  predicate Flagged(next: Successors, nums: seq<string>, k: nat)
    requires k < |nums|
  {
    nums[k] != "" && AnchorBefore(next, nums, k).Some? && !Accepts(next, AnchorBefore(next, nums, k).value, nums[k])
  }

  lemma {:induction false} WalkFromAnchor(next: Successors, nums: seq<string>, j: nat)
    requires j <= |nums|
    ensures var w := WalkFrom(next, nums, AnchorBefore(next, nums, j), j);
      w.Ok? ==> forall k :: k in w.value <==> j <= k < |nums| && Flagged(next, nums, k)
    decreases |nums| - j
  {
    if j < |nums| {
      WalkFromAnchor(next, nums, j + 1);
      var a := AnchorBefore(next, nums, j);
      var w := WalkFrom(next, nums, a, j);
      var w' := WalkFrom(next, nums, AnchorBefore(next, nums, j + 1), j + 1);
      if nums[j] == "" || a.None? || Accepts(next, a.value, nums[j]) {
        assert !Flagged(next, nums, j);
        assert w == w';
      } else if next(a.value).Ok? {
        assert Flagged(next, nums, j);
        assert AnchorBefore(next, nums, j + 1) == a;
        assert w == Prepend(j, w');
      }
    }
  }

  /**
   * When the walk succeeds it flags exactly the numbered entries that are not
   * successors of the last accepted numbering before them.
   */
  lemma WalkFlagsExactly(next: Successors, nums: seq<string>)
    ensures var w := WalkFrom(next, nums, None, 0);
      w.Ok? ==> forall k :: k in w.value <==> 0 <= k < |nums| && Flagged(next, nums, k)
  {
    WalkFromAnchor(next, nums, 0);
  }

  /** The accepted numbering is always an earlier numbered entry. */
  lemma {:induction false} AnchorIsEarlier(next: Successors, nums: seq<string>, k: nat)
    requires k <= |nums|
    ensures AnchorBefore(next, nums, k).Some? ==>
      exists i :: 0 <= i < k && nums[i] != "" && nums[i] == AnchorBefore(next, nums, k).value
    ensures AnchorBefore(next, nums, k).None? ==> forall i :: 0 <= i < k ==> nums[i] == ""
  {
    if k > 0 {
      AnchorIsEarlier(next, nums, k - 1);
    }
  }

  /** Neither an unnumbered entry nor the first numbered entry is ever flagged. */
  lemma FlaggedHasEarlierNumbering(next: Successors, nums: seq<string>, k: nat)
    requires k < |nums| && Flagged(next, nums, k)
    ensures nums[k] != ""
    ensures exists i :: 0 <= i < k && nums[i] != ""
  {
    AnchorIsEarlier(next, nums, k);
  }

  /**
   * `nums[m]` is the accepted numbering once the walk has passed `nums[..k]`:
   * it was not flagged and every numbering after it was.
   */
  predicate LastAccepted(next: Successors, nums: seq<string>, k: nat, m: nat)
    requires k <= |nums|
  {
    && m < k && nums[m] != "" && !Flagged(next, nums, m)
    && AnchorBefore(next, nums, k) == Some(nums[m])
    && forall l :: m < l < k && nums[l] != "" ==> Flagged(next, nums, l)
  }

  lemma {:induction false} AnchorIsLastAccepted(next: Successors, nums: seq<string>, k: nat)
    requires k <= |nums|
    ensures AnchorBefore(next, nums, k).Some? ==> exists m :: LastAccepted(next, nums, k, m)
  {
    if k > 0 {
      AnchorIsLastAccepted(next, nums, k - 1);
      var a := AnchorBefore(next, nums, k - 1);
      var x := nums[k - 1];
      if x != "" && (a.None? || Accepts(next, a.value, x)) {
        assert LastAccepted(next, nums, k, k - 1);
      } else if a.Some? {
        var m :| LastAccepted(next, nums, k - 1, m);
        assert LastAccepted(next, nums, k, m);
      }
    }
  }

  /** A walk that succeeds computed the successors of every anchor it compared against. */
  lemma {:induction false} WalkFromAnchorOk(next: Successors, nums: seq<string>, j: nat)
    requires j <= |nums|
    ensures WalkFrom(next, nums, AnchorBefore(next, nums, j), j).Ok? ==>
      forall k :: j <= k < |nums| && nums[k] != "" && AnchorBefore(next, nums, k).Some? ==>
        next(AnchorBefore(next, nums, k).value).Ok?
    decreases |nums| - j
  {
    if j < |nums| {
      WalkFromAnchorOk(next, nums, j + 1);
      var a := AnchorBefore(next, nums, j);
      if nums[j] != "" && a.Some? && next(a.value).Ok? && !Accepts(next, a.value, nums[j]) {
        assert WalkFrom(next, nums, a, j) == Prepend(j, WalkFrom(next, nums, a, j + 1));
      }
    }
  }

  // ---------------------------------------------------------------------
  // Renumbering the flagged entries
  // ---------------------------------------------------------------------

  /** The nearest numbered entry before `idx`. */
  function PrevNumbered(rec: seq<string>, idx: nat): (r: Option<nat>)
    requires idx <= |rec|
    ensures r.Some? ==> r.value < idx && rec[r.value] != "" && forall i :: r.value < i < idx ==> rec[i] == ""
    ensures r.None? ==> forall i :: 0 <= i < idx ==> rec[i] == ""
  {
    if idx == 0 then None
    else if rec[idx - 1] != "" then Some(idx - 1)
    else PrevNumbered(rec, idx - 1)
  }

  /** The nearest numbered entry at or after `k`. */
  function NextNumberedFrom(rec: seq<string>, k: nat): (r: Option<nat>)
    ensures r.Some? ==> k <= r.value < |rec| && rec[r.value] != "" && forall i :: k <= i < r.value ==> rec[i] == ""
    ensures r.None? ==> forall i :: k <= i < |rec| ==> rec[i] == ""
    decreases |rec| - k
  {
    if k >= |rec| then None
    else if rec[k] != "" then Some(k)
    else NextNumberedFrom(rec, k + 1)
  }

  /** `for i in range(idx - 1, -1, -1)` looking for a numbered entry. */
  method FindPrevious(rec: seq<string>, idx: nat) returns (r: Option<nat>)
    requires idx <= |rec|
    ensures r == PrevNumbered(rec, idx)
  {
    var i := idx;
    while i > 0
      invariant 0 <= i <= idx
      invariant PrevNumbered(rec, idx) == PrevNumbered(rec, i)
    {
      if rec[i - 1] != "" {
        return Some(i - 1);
      }
      i := i - 1;
    }
    return None;
  }

  /** `for i in range(idx + 1, len(...))` looking for a numbered entry. */
  method FindNext(rec: seq<string>, idx: nat) returns (r: Option<nat>)
    ensures r == NextNumberedFrom(rec, idx + 1)
  {
    var i := idx + 1;
    while i < |rec|
      invariant idx + 1 <= i
      invariant NextNumberedFrom(rec, idx + 1) == NextNumberedFrom(rec, i)
      decreases |rec| - i
    {
      if rec[i] != "" {
        return Some(i);
      }
      i := i + 1;
    }
    return None;
  }

  /**
   * The new components of a flagged entry from its neighbours' components.
   * Inside the first branch `len(prev_parts) < 4` always holds, so its
   * alternative never runs and is not written here.
   */
  function Reconstruct(pp: seq<nat>, np: seq<nat>): seq<nat>
    requires |pp| >= 1 && |np| >= 1
  {
    if |pp| == 1 && np[0] == pp[0] then pp + [1]
    else if |pp| == |np| && pp[..|pp| - 1] == np[..|np| - 1] then pp[..|pp| - 1] + [pp[|pp| - 1] + 1]
    else pp[..|pp| - 1] + [pp[|pp| - 1] + 1]
  }

  /**
   * Only two outcomes exist: the first child of a depth-1 `prev` whose top
   * component `next` shares, otherwise `prev`'s next sibling; both are legal
   * successors of `prev`.
   */
  lemma ReconstructTwoRules(pp: seq<nat>, np: seq<nat>)
    requires |pp| >= 1 && |np| >= 1
    ensures |pp| == 1 && np[0] == pp[0] ==> Reconstruct(pp, np) == pp + [1]
    ensures !(|pp| == 1 && np[0] == pp[0]) ==> Reconstruct(pp, np) == pp[..|pp| - 1] + [pp[|pp| - 1] + 1]
    ensures Legal(pp, Reconstruct(pp, np))
  {
    var r := Reconstruct(pp, np);
    var n := |pp|;
    if n == 1 && np[0] == pp[0] {
      assert r[..n] == pp;
    } else {
      assert r[..n - 1] == pp[..n - 1];
    }
  }

  const InvalidLiteral := "invalid literal for int() with base 10: ''"

  /** One iteration of the repair loop for flagged index `idx`. */
  function RepairOne(rec: seq<string>, idx: nat): (r: Result<seq<string>>)
    requires idx < |rec|
    ensures r.Ok? ==> |r.value| == |rec|
    ensures r.Ok? ==> forall i :: 0 <= i < |rec| && i != idx ==> r.value[i] == rec[i]
    ensures (PrevNumbered(rec, idx).None? || NextNumberedFrom(rec, idx + 1).None?) ==> r == Ok(rec)
  {
    var prev := PrevNumbered(rec, idx);
    var next := NextNumberedFrom(rec, idx + 1);
    if prev.Some? && next.Some? then
      var pp := ParseParts(rec[prev.value]);
      var np := ParseParts(rec[next.value]);
      if pp.None? || np.None? then Err(InvalidLiteral)
      else
        var q := Reconstruct(pp.value, np.value);
        Ok(rec[idx := Render(q)])
    else Ok(rec)
  }

  /**
   * A renumbered entry is a legal successor of the numbered entry before it,
   * so the walk would now accept it after that entry.
   */
  lemma RepairOneFollowsPrevious(rec: seq<string>, idx: nat)
    requires idx < |rec|
    requires RepairOne(rec, idx).Ok?
    requires PrevNumbered(rec, idx).Some? && NextNumberedFrom(rec, idx + 1).Some?
    ensures var prev := rec[PrevNumbered(rec, idx).value];
      Accepts(NextNumberings, prev, RepairOne(rec, idx).value[idx])
  {
    var prev := rec[PrevNumbered(rec, idx).value];
    var pp := ParseParts(prev).value;
    var np := ParseParts(rec[NextNumberedFrom(rec, idx + 1).value]).value;
    var q := Reconstruct(pp, np);
    ReconstructTwoRules(pp, np);
    ParseRender(q);
    SuccessorListMembership(pp, Render(q));
  }

  predicate InBounds(fl: seq<nat>, n: nat)
  {
    forall a :: 0 <= a < |fl| ==> fl[a] < n
  }

  /** The repair loop over the flagged indices, in order. */
  function RepairAll(rec: seq<string>, fl: seq<nat>): (r: Result<seq<string>>)
    requires InBounds(fl, |rec|)
    ensures r.Ok? ==> |r.value| == |rec|
    decreases |fl|
  {
    if fl == [] then Ok(rec)
    else
      match RepairOne(rec, fl[0])
      case Err(e) => Err(e)
      case Ok(rec') => RepairAll(rec', fl[1..])
  }

  /** Entries outside the flagged list keep their numbering, and so do unnumbered ones. */
  lemma {:induction false} RepairAllFrame(rec: seq<string>, fl: seq<nat>)
    requires InBounds(fl, |rec|)
    ensures RepairAll(rec, fl).Ok? ==>
      forall i :: 0 <= i < |rec| && i !in fl ==> RepairAll(rec, fl).value[i] == rec[i]
    decreases |fl|
  {
    if fl != [] {
      var r1 := RepairOne(rec, fl[0]);
      if r1.Ok? {
        RepairAllFrame(r1.value, fl[1..]);
      }
    }
  }

  /** The same entries are numbered in both lists. */
  predicate SameBlanks(a: seq<string>, b: seq<string>)
  {
    |a| == |b| && forall i :: 0 <= i < |a| ==> (a[i] == "" <==> b[i] == "")
  }

  lemma {:induction false} NeighboursSameBlanks(a: seq<string>, b: seq<string>, idx: nat)
    requires SameBlanks(a, b) && idx <= |a|
    ensures PrevNumbered(a, idx) == PrevNumbered(b, idx)
    ensures NextNumberedFrom(a, idx) == NextNumberedFrom(b, idx)
  {
    var p := PrevNumbered(a, idx);
    var n := NextNumberedFrom(a, idx);
    assert p.Some? ==> b[p.value] != "";
    assert n.Some? ==> b[n.value] != "";
  }

  /** The flagged indices are numbered entries. */
  predicate FlagsNumbered(fl: seq<nat>, rec: seq<string>)
  {
    forall a :: 0 <= a < |fl| ==> fl[a] < |rec| && rec[fl[a]] != ""
  }

  /** Writing a numbering token over a numbered entry. */
  lemma UpdateShape(rec: seq<string>, idx: nat, t: string)
    requires idx < |rec| && rec[idx] != "" && IsNumberingToken(t)
    ensures SameBlanks(rec, rec[idx := t]) && (WellFormed(rec) ==> WellFormed(rec[idx := t]))
  {
  }

  /** A repair only ever writes a numbering token over a numbering token. */
  lemma RepairOneShape(rec: seq<string>, idx: nat)
    requires idx < |rec| && rec[idx] != ""
    ensures RepairOne(rec, idx).Ok? ==>
      SameBlanks(rec, RepairOne(rec, idx).value) && (WellFormed(rec) ==> WellFormed(RepairOne(rec, idx).value))
  {
    var prev := PrevNumbered(rec, idx);
    var next := NextNumberedFrom(rec, idx + 1);
    if prev.Some? && next.Some? && ParseParts(rec[prev.value]).Some? && ParseParts(rec[next.value]).Some? {
      var q := Reconstruct(ParseParts(rec[prev.value]).value, ParseParts(rec[next.value]).value);
      RenderIsToken(q);
      UpdateShape(rec, idx, Render(q));
    }
  }

  lemma {:induction false} RepairAllShape(rec: seq<string>, fl: seq<nat>)
    requires FlagsNumbered(fl, rec)
    ensures RepairAll(rec, fl).Ok? ==>
      SameBlanks(rec, RepairAll(rec, fl).value) && (WellFormed(rec) ==> WellFormed(RepairAll(rec, fl).value))
    decreases |fl|
  {
    if fl != [] {
      var r1 := RepairOne(rec, fl[0]);
      if r1.Ok? {
        RepairOneShape(rec, fl[0]);
        assert FlagsNumbered(fl[1..], r1.value);
        RepairAllShape(r1.value, fl[1..]);
      }
    }
  }

  /** A repair between two numbered neighbours writes a legal successor of the one before. */
  lemma RepairOneLegal(rec: seq<string>, idx: nat)
    requires idx < |rec| && RepairOne(rec, idx).Ok?
    requires PrevNumbered(rec, idx).Some? && NextNumberedFrom(rec, idx + 1).Some?
    ensures var r := RepairOne(rec, idx).value;
      var p := PrevNumbered(rec, idx).value;
      ParseParts(r[p]).Some? && ParseParts(r[idx]).Some? && Legal(ParseParts(r[p]).value, ParseParts(r[idx]).value)
  {
    var p := PrevNumbered(rec, idx).value;
    var n := NextNumberedFrom(rec, idx + 1).value;
    var pp := ParseParts(rec[p]).value;
    var q := Reconstruct(pp, ParseParts(rec[n]).value);
    ReconstructTwoRules(pp, ParseParts(rec[n]).value);
    ParseRender(q);
    assert RepairOne(rec, idx).value == rec[idx := Render(q)];
  }

  /** The case of `RepairAllFinal` where `m` is the first flagged index: later repairs leave it alone. */
  lemma RepairAllFinalFirst(rec: seq<string>, fl: seq<nat>)
    requires fl != [] && InBounds(fl, |rec|) && Increasing(fl)
    requires RepairAll(rec, fl).Ok?
    ensures var r := RepairAll(rec, fl).value;
      var m := fl[0];
      var prev := PrevNumbered(rec, m);
      var next := NextNumberedFrom(rec, m + 1);
      && (prev.None? || next.None? ==> r[m] == rec[m])
      && (prev.Some? && next.Some? ==>
            ParseParts(r[prev.value]).Some? && ParseParts(r[m]).Some?
            && Legal(ParseParts(r[prev.value]).value, ParseParts(r[m]).value))
  {
    var m := fl[0];
    var r1 := RepairOne(rec, m).value;
    var rest := fl[1..];
    assert RepairAll(rec, fl) == RepairAll(r1, rest);
    assert InBounds(rest, |r1|);
    assert m !in rest;
    RepairAllFrame(r1, rest);
    if PrevNumbered(rec, m).Some? && NextNumberedFrom(rec, m + 1).Some? {
      assert PrevNumbered(rec, m).value !in rest;
      RepairOneLegal(rec, m);
    }
  }

  /**
   * The final numbering of a flagged index: unchanged when it lacks a
   * numbered neighbour on either side, otherwise a legal successor of the
   * final numbering of its numbered predecessor.
   */
  lemma {:induction false} RepairAllFinal(rec: seq<string>, fl: seq<nat>, m: nat)
    requires InBounds(fl, |rec|) && FlagsNumbered(fl, rec) && Increasing(fl) && m in fl
    requires RepairAll(rec, fl).Ok?
    ensures var r := RepairAll(rec, fl).value;
      var prev := PrevNumbered(rec, m);
      var next := NextNumberedFrom(rec, m + 1);
      && (prev.None? || next.None? ==> r[m] == rec[m])
      && (prev.Some? && next.Some? ==>
            ParseParts(r[prev.value]).Some? && ParseParts(r[m]).Some?
            && Legal(ParseParts(r[prev.value]).value, ParseParts(r[m]).value))
    decreases |fl|
  {
    var r1 := RepairOne(rec, fl[0]).value;
    var rest := fl[1..];
    assert RepairAll(rec, fl) == RepairAll(r1, rest);
    assert Increasing(rest) && InBounds(rest, |r1|);
    if fl[0] == m {
      RepairAllFinalFirst(rec, fl);
    } else {
      assert m in rest;
      RepairOneShape(rec, fl[0]);
      assert FlagsNumbered(rest, r1);
      NeighboursSameBlanks(rec, r1, m);
      NeighboursSameBlanks(rec, r1, m + 1);
      RepairAllFinal(r1, rest, m);
    }
  }

  /** `reconstructed_numberings` updated in place for each flagged index. */
  method RepairNumberings(nums: seq<string>, flagged: seq<nat>) returns (r: Result<seq<string>>)
    requires InBounds(flagged, |nums|)
    ensures r == RepairAll(nums, flagged)
  {
    var rec := nums;
    for t := 0 to |flagged|
      invariant |rec| == |nums|
      invariant RepairAll(nums, flagged) == RepairAll(rec, flagged[t..])
    {
      var idx := flagged[t];
      assert flagged[t..][1..] == flagged[t + 1..];
      var step := RepairAt(rec, idx);
      if step.Err? {
        return Err(step.msg);
      }
      rec := step.value;
    }
    return Ok(rec);
  }

  /** The body of the repair loop for one flagged index. */
  method RepairAt(rec: seq<string>, idx: nat) returns (r: Result<seq<string>>)
    requires idx < |rec|
    ensures r == RepairOne(rec, idx)
  {
    var prevValid := FindPrevious(rec, idx);
    var nextValid := FindNext(rec, idx);
    if prevValid.Some? && nextValid.Some? {
      var prevParts := ParseParts(rec[prevValid.value]);
      var nextParts := ParseParts(rec[nextValid.value]);
      if prevParts.None? || nextParts.None? {
        return Err(InvalidLiteral);
      }
      return Ok(rec[idx := Render(Reconstruct(prevParts.value, nextParts.value))]);
    }
    return Ok(rec);
  }

  // ---------------------------------------------------------------------
  // Rebuilding the dictionary
  // ---------------------------------------------------------------------

  /** `new_numbering + " " + parts[1]`, or the numbering alone for a one-word key. */
  function NewKey(key: string, numbering: string): string
  {
    match SplitOnce(key, ' ').1
    case Some(rest) => numbering + " " + rest
    case None => numbering
  }

  /** A key rebuilt with its own numbering is the key itself. */
  lemma NewKeyOwnNumbering(key: string)
    requires KeyNumbering(key) != ""
    ensures NewKey(key, KeyNumbering(key)) == key
  {
  }

  /** A key rebuilt with a numbering token starts with that numbering. */
  lemma KeyNumberingNewKey(key: string, t: string)
    requires IsNumberingToken(t)
    ensures KeyNumbering(NewKey(key, t)) == t
  {
    assert ' ' !in t by {
      forall i | 0 <= i < |t| ensures t[i] != ' ' {
        assert IsDigit(t[i]) || t[i] == '.';
      }
    }
    match SplitOnce(key, ' ').1
    case Some(rest) => SplitOnceAt(t, ' ', rest);
    case None => SplitOnceWithout(t, ' ');
  }

  /** The assignment made for entry `i`: unnumbered entries keep their key. */
  function RebuiltPair<V>(entry: (string, V), numbering: string, repaired: string): (string, V)
  {
    if numbering == "" then entry else (NewKey(entry.0, repaired), entry.1)
  }

  function RebuiltPairs<V>(data: Dict<V>, nums: seq<string>, rec: seq<string>): (ps: seq<(string, V)>)
    requires |nums| == |data| == |rec|
    ensures |ps| == |data| && forall i :: 0 <= i < |data| ==> ps[i].1 == data[i].1
  {
    seq(|data|, i requires 0 <= i < |data| => RebuiltPair(data[i], nums[i], rec[i]))
  }

  /** The whole of `find_and_replace_numberings`, as a value. */
  function Renumbered<V>(data: Dict<V>): Result<Dict<V>>
  {
    var nums := Numberings(data);
    WalkFromIncreasing(NextNumberings, nums, None, 0);
    match WalkFrom(NextNumberings, nums, None, 0)
    case Err(e) => Err(e)
    case Ok(fl) =>
      match RepairAll(nums, fl)
      case Err(e) => Err(e)
      case Ok(rec) => Ok(FromPairs(RebuiltPairs(data, nums, rec)))
  }

  /** The first loop: the numbering of each key, and the indices of keys without one. */
  method ExtractNumberings<V>(data: Dict<V>) returns (numberings: seq<string>, blankIndexes: seq<nat>)
    ensures numberings == Numberings(data)
    ensures forall k :: 0 <= k < |data| ==> (k in blankIndexes <==> numberings[k] == "")
  {
    numberings := [];
    blankIndexes := [];
    for idx := 0 to |data|
      invariant |numberings| == idx
      invariant forall k :: 0 <= k < idx ==> numberings[k] == KeyNumbering(data[k].0)
      invariant forall k :: 0 <= k < idx ==> (k in blankIndexes <==> numberings[k] == "")
      invariant forall k :: k in blankIndexes ==> k < idx
    {
      var parts := SplitOnce(data[idx].0, ' ');
      ghost var w := KeyNumbering(data[idx].0);
      if IsNumberingToken(parts.0) {
        assert w == parts.0 != "";
        numberings := numberings + [parts.0];
      } else {
        assert w == "" && idx !in blankIndexes;
        numberings := numberings + [""];
        blankIndexes := blankIndexes + [idx];
      }
    }
    assert numberings == Numberings(data);
  }

  /** The last loop: assign every entry under its rebuilt key into a fresh dictionary. */
  method Rebuild<V>(data: Dict<V>, numberings: seq<string>, blankIndexes: seq<nat>, rec: seq<string>)
    returns (updated: Dict<V>)
    requires |numberings| == |data| == |rec|
    requires forall k :: 0 <= k < |data| ==> (k in blankIndexes <==> numberings[k] == "")
    ensures updated == FromPairs(RebuiltPairs(data, numberings, rec))
  {
    ghost var ps := RebuiltPairs(data, numberings, rec);
    updated := [];
    for idx := 0 to |data|
      invariant updated == FromPairs(ps[..idx])
    {
      assert ps[..idx + 1][..idx] == ps[..idx];
      var (key, value) := data[idx];
      if idx in blankIndexes {
        updated := Put(updated, key, value);
      } else {
        var parts := SplitOnce(key, ' ');
        var newNumbering := rec[idx];
        if parts.1.Some? {
          updated := Put(updated, newNumbering + " " + parts.1.value, value);
        } else {
          updated := Put(updated, newNumbering, value);
        }
      }
    }
    assert ps[..|data|] == ps;
  }

  method FindAndReplaceNumberings<V>(data: Dict<V>) returns (r: Result<Dict<V>>)
    ensures r == Renumbered(data)
  {
    var numberings, blankIndexes := ExtractNumberings(data);
    var walk := Walk(NextNumberings, numberings);
    if walk.Err? {
      return Err(walk.msg);
    }
    WalkFromIncreasing(NextNumberings, numberings, None, 0);
    var reconstructed := RepairNumberings(numberings, walk.value);
    if reconstructed.Err? {
      return Err(reconstructed.msg);
    }
    var updated := Rebuild(data, numberings, blankIndexes, reconstructed.value);
    return Ok(updated);
  }

  /** `rec` is what the repair loop makes of `nums` with the flags of a successful walk. */
  predicate RepairedFrom(nums: seq<string>, fl: seq<nat>, rec: seq<string>)
  {
    && WalkFrom(NextNumberings, nums, None, 0) == Ok(fl)
    && InBounds(fl, |nums|) && FlagsNumbered(fl, nums) && Increasing(fl)
    && RepairAll(nums, fl) == Ok(rec)
  }

  lemma RepairedFromWalk(nums: seq<string>, fl: seq<nat>)
    requires WalkFrom(NextNumberings, nums, None, 0) == Ok(fl)
    ensures InBounds(fl, |nums|)
    ensures RepairAll(nums, fl).Ok? ==> RepairedFrom(nums, fl, RepairAll(nums, fl).value)
  {
    WalkFromIncreasing(NextNumberings, nums, None, 0);
    WalkFlagsExactly(NextNumberings, nums);
    assert FlagsNumbered(fl, nums) by {
      forall a | 0 <= a < |fl| ensures nums[fl[a]] != "" {
        assert fl[a] in fl;
      }
    }
  }

  /** The walk flags index `k` exactly when `k` is flagged, and only flagged numberings change. */
  lemma RepairedAt(nums: seq<string>, fl: seq<nat>, rec: seq<string>, k: nat)
    requires RepairedFrom(nums, fl, rec) && k < |nums|
    ensures k in fl <==> Flagged(NextNumberings, nums, k)
    ensures !Flagged(NextNumberings, nums, k) ==> rec[k] == nums[k]
  {
    WalkFlagsExactly(NextNumberings, nums);
    RepairAllFrame(nums, fl);
  }

  /** An accepted numbering followed by another numbering parses, or the walk would have failed. */
  lemma AcceptedParses(nums: seq<string>, fl: seq<nat>, i: nat)
    requires WalkFrom(NextNumberings, nums, None, 0) == Ok(fl)
    requires i < |nums| && nums[i] != "" && !Flagged(NextNumberings, nums, i)
    requires NextNumberedFrom(nums, i + 1).Some?
    ensures ParseParts(nums[i]).Some?
  {
    var n := NextNumberedFrom(nums, i + 1).value;
    AnchorIsEarlier(NextNumberings, nums, n);
    AnchorIsLastAccepted(NextNumberings, nums, n);
    var m :| LastAccepted(NextNumberings, nums, n, m);
    assert m == i;
    WalkFromAnchorOk(NextNumberings, nums, 0);
    assert NextNumberings(nums[i]).Ok?;
  }

  /**
   * An accepted numbering after the accepted `nums[i]` is above the accepted
   * numbering `nums[m]` just before it, and `m` is not before `i`.
   */
  lemma AcceptedAbove(nums: seq<string>, i: nat, k: nat) returns (m: nat)
    requires i < k < |nums| && nums[i] != "" && !Flagged(NextNumberings, nums, i)
    requires nums[k] != "" && !Flagged(NextNumberings, nums, k)
    ensures i <= m < k && nums[m] != "" && !Flagged(NextNumberings, nums, m)
    ensures ParseParts(nums[m]).Some? && ParseParts(nums[k]).Some?
    ensures LexLess(ParseParts(nums[m]).value, ParseParts(nums[k]).value)
  {
    AnchorIsEarlier(NextNumberings, nums, k);
    AnchorIsLastAccepted(NextNumberings, nums, k);
    m :| LastAccepted(NextNumberings, nums, k, m);
    var pm := ParseParts(nums[m]).value;
    assert Accepts(NextNumberings, nums[m], nums[k]);
    SuccessorListMembership(pm, nums[k]);
    LegalIsGreater(pm, ParseParts(nums[k]).value);
  }

  /** A renumbered entry is above the final numbering of its numbered predecessor. */
  lemma RepairedAbove(nums: seq<string>, fl: seq<nat>, rec: seq<string>, k: nat)
    requires RepairedFrom(nums, fl, rec)
    requires k in fl && PrevNumbered(nums, k).Some? && NextNumberedFrom(nums, k + 1).Some?
    ensures var p := PrevNumbered(nums, k).value;
      ParseParts(rec[p]).Some? && ParseParts(rec[k]).Some? && LexLess(ParseParts(rec[p]).value, ParseParts(rec[k]).value)
  {
    RepairAllFinal(nums, fl, k);
    var p := PrevNumbered(nums, k).value;
    LegalIsGreater(ParseParts(rec[p]).value, ParseParts(rec[k]).value);
  }

  /**
   * Once the walk has accepted `nums[i]`, every later numbered entry that
   * still has a numbered entry after it ends up at or above `nums[i]` in
   * tuple order: accepted entries are legal successors of the previous
   * accepted one, and repaired entries legal successors of their repaired
   * predecessor.
   */
  lemma {:induction false} RepairedAtOrAbove(nums: seq<string>, fl: seq<nat>, rec: seq<string>, i: nat, k: nat)
    requires RepairedFrom(nums, fl, rec)
    requires i <= k < |nums| && nums[i] != "" && !Flagged(NextNumberings, nums, i) && nums[k] != ""
    requires NextNumberedFrom(nums, k + 1).Some?
    ensures ParseParts(nums[i]).Some? && ParseParts(rec[k]).Some?
    ensures LexLeq(ParseParts(nums[i]).value, ParseParts(rec[k]).value)
    decreases k
  {
    RepairedAt(nums, fl, rec, k);
    if k == i {
      AcceptedParses(nums, fl, i);
    } else if Flagged(NextNumberings, nums, k) {
      var p := PrevNumbered(nums, k).value;
      RepairedAbove(nums, fl, rec, k);
      RepairedAtOrAbove(nums, fl, rec, i, p);
      LexLessTransitive(ParseParts(nums[i]).value, ParseParts(rec[p]).value, ParseParts(rec[k]).value);
    } else {
      var m := AcceptedAbove(nums, i, k);
      RepairedAtOrAbove(nums, fl, rec, i, m);
      RepairedAt(nums, fl, rec, m);
      LexLessTransitive(ParseParts(nums[i]).value, ParseParts(nums[m]).value, ParseParts(nums[k]).value);
    }
  }

  /** A renumbered entry never takes the numbering of an earlier accepted entry. */
  lemma RepairedAvoidsAccepted(nums: seq<string>, fl: seq<nat>, rec: seq<string>, i: nat, j: nat)
    requires RepairedFrom(nums, fl, rec)
    requires i < j < |nums| && nums[i] != "" && !Flagged(NextNumberings, nums, i)
    requires rec[j] != nums[j]
    ensures rec[j] != nums[i]
  {
    RepairedAt(nums, fl, rec, j);
    RepairAllFinal(nums, fl, j);
    var p := PrevNumbered(nums, j).value;
    RepairedAbove(nums, fl, rec, j);
    RepairedAtOrAbove(nums, fl, rec, i, p);
    LexLessTransitive(ParseParts(nums[i]).value, ParseParts(rec[p]).value, ParseParts(rec[j]).value);
    LexLessIrreflexive(ParseParts(nums[i]).value, ParseParts(rec[j]).value);
  }

  /**
   * No later assignment reuses the key of an entry the walk did not flag:
   * a later key left as it was differs from it because the keys of `data`
   * are distinct, and a later renumbered key starts with a numbering that is
   * neither blank nor the numbering of an accepted entry before it.
   */
  lemma RebuiltKeyDistinct<V>(data: Dict<V>, fl: seq<nat>, rec: seq<string>, i: nat, j: nat)
    requires UniqueKeys(data)
    requires RepairedFrom(Numberings(data), fl, rec)
    requires i < j < |data| && i !in fl
    ensures RebuiltPairs(data, Numberings(data), rec)[j].0 != data[i].0
  {
    var nums := Numberings(data);
    var ps := RebuiltPairs(data, nums, rec);
    RepairedAt(nums, fl, rec, i);
    if nums[j] == "" || rec[j] == nums[j] {
      if nums[j] != "" {
        NewKeyOwnNumbering(data[j].0);
      }
      assert ps[j] == data[j];
    } else {
      RepairAllShape(nums, fl);
      KeyNumberingNewKey(data[j].0, rec[j]);
      if nums[i] != "" {
        RepairedAvoidsAccepted(nums, fl, rec, i, j);
      }
      assert KeyNumbering(ps[j].0) != KeyNumbering(data[i].0);
    }
  }

  /** The dict assembled from the rebuilt pairs maps an unflagged entry's key to its value. */
  lemma UnflaggedKeyKept<V>(data: Dict<V>, fl: seq<nat>, rec: seq<string>, i: nat)
    requires UniqueKeys(data)
    requires RepairedFrom(Numberings(data), fl, rec)
    requires i < |data| && i !in fl
    requires RebuiltPairs(data, Numberings(data), rec)[i] == data[i]
    ensures Get(FromPairs(RebuiltPairs(data, Numberings(data), rec)), data[i].0) == Some(data[i].1)
  {
    var ps := RebuiltPairs(data, Numberings(data), rec);
    forall j | i < j < |ps| ensures ps[j].0 != ps[i].0 {
      RebuiltKeyDistinct(data, fl, rec, i, j);
    }
    FromPairsLastWins(ps, i);
  }

  /**
   * Every entry the walk does not flag, numbered or not, is re-assigned with
   * its original key and value, and no later assignment overwrites it: the
   * returned dict still maps that key to that value.
   */
  lemma UnflaggedEntriesKept<V>(data: Dict<V>, fl: seq<nat>)
    requires UniqueKeys(data)
    requires WalkFrom(NextNumberings, Numberings(data), None, 0) == Ok(fl)
    ensures InBounds(fl, |data|)
    ensures var nums := Numberings(data);
      RepairAll(nums, fl).Ok? ==>
        forall i :: 0 <= i < |data| && i !in fl ==> RebuiltPairs(data, nums, RepairAll(nums, fl).value)[i] == data[i]
    ensures Renumbered(data).Ok? ==>
      forall i | 0 <= i < |data| && i !in fl :: Get(Renumbered(data).value, data[i].0) == Some(data[i].1)
  {
    var nums := Numberings(data);
    RepairedFromWalk(nums, fl);
    if RepairAll(nums, fl).Ok? {
      var rec := RepairAll(nums, fl).value;
      RepairAllFrame(nums, fl);
      assert Renumbered(data) == Ok(FromPairs(RebuiltPairs(data, nums, rec)));
      forall i | 0 <= i < |data| && i !in fl
        ensures RebuiltPairs(data, nums, rec)[i] == data[i]
        ensures Get(Renumbered(data).value, data[i].0) == Some(data[i].1)
      {
        if nums[i] != "" {
          NewKeyOwnNumbering(data[i].0);
        }
        UnflaggedKeyKept(data, fl, rec, i);
      }
    }
  }

  /** A dictionary whose numberings already follow each other comes back unchanged. */
  lemma ConsistentUnchanged<V>(data: Dict<V>)
    requires UniqueKeys(data)
    requires WalkFrom(NextNumberings, Numberings(data), None, 0) == Ok([])
    ensures Renumbered(data) == Ok(data)
  {
    var nums := Numberings(data);
    UnflaggedEntriesKept(data, []);
    var ps := RebuiltPairs(data, nums, nums);
    assert ps == data;
    FromUniquePairs(data);
  }
}
