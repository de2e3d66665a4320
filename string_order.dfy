/**
 * Python's ordering of strings (code point by code point, a proper prefix
 * first) and `sorted(set(xs))` on a list of strings.
 */
module StringOrder {

  /** `a < b` on Python strings */
  predicate Less(a: string, b: string)
  {
    |b| > 0 && (|a| == 0 || a[0] < b[0] || (a[0] == b[0] && Less(a[1..], b[1..])))
  }

  lemma {:induction false} LessIrreflexive(a: string)
    ensures !Less(a, a)
  {
    if |a| > 0 {
      LessIrreflexive(a[1..]);
    }
  }

  lemma {:induction false} LessTransitive(a: string, b: string, c: string)
    requires Less(a, b) && Less(b, c)
    ensures Less(a, c)
  {
    if |a| > 0 && a[0] == b[0] && b[0] == c[0] {
      LessTransitive(a[1..], b[1..], c[1..]);
    }
  }

  lemma {:induction false} LessTotal(a: string, b: string)
    requires a != b
    ensures Less(a, b) || Less(b, a)
  {
    if |a| > 0 && |b| > 0 && a[0] == b[0] {
      assert a == [a[0]] + a[1..] && b == [b[0]] + b[1..];
      LessTotal(a[1..], b[1..]);
    }
  }

  lemma {:induction false} LessAsymmetric(a: string, b: string)
    requires Less(a, b)
    ensures !Less(b, a)
  {
    if |a| > 0 && a[0] == b[0] {
      LessAsymmetric(a[1..], b[1..]);
    }
  }

  /** Strictly increasing: sorted and free of duplicates. */
  predicate StrictlySorted(r: seq<string>)
  {
    forall i, j :: 0 <= i < j < |r| ==> Less(r[i], r[j])
  }

  lemma StrictlySortedDistinct(r: seq<string>)
    requires StrictlySorted(r)
    ensures forall i, j :: 0 <= i < j < |r| ==> r[i] != r[j]
  {
    forall i, j | 0 <= i < j < |r| ensures r[i] != r[j] {
      if r[i] == r[j] {
        LessIrreflexive(r[i]);
      }
    }
  }

  /** Insert `x` before the first element not below it, unless it is already there. */
  function Insert(x: string, r: seq<string>): seq<string>
  {
    if r == [] then [x]
    else if x == r[0] then r
    else if Less(x, r[0]) then [x] + r
    else [r[0]] + Insert(x, r[1..])
  }

  lemma {:induction false} InsertSorted(x: string, r: seq<string>)
    requires StrictlySorted(r)
    ensures StrictlySorted(Insert(x, r))
    ensures forall y :: y in Insert(x, r) <==> y == x || y in r
  {
    if r == [] {
    } else if x == r[0] {
    } else if Less(x, r[0]) {
      forall j | 0 < j < |r| ensures Less(x, r[j]) {
        LessTransitive(x, r[0], r[j]);
      }
    } else {
      LessTotal(x, r[0]);
      InsertSorted(x, r[1..]);
      var t := Insert(x, r[1..]);
      assert forall y :: y in t ==> Less(r[0], y);
    }
  }

  /** `sorted(set(xs))` */
  function SortUnique(xs: seq<string>): seq<string>
  {
    if xs == [] then [] else Insert(xs[0], SortUnique(xs[1..]))
  }

  /** The result is strictly increasing and holds exactly the elements of `xs`. */
  lemma {:induction false} SortUniqueSpec(xs: seq<string>)
    ensures StrictlySorted(SortUnique(xs))
    ensures forall y :: y in SortUnique(xs) <==> y in xs
  {
    if xs != [] {
      SortUniqueSpec(xs[1..]);
      InsertSorted(xs[0], SortUnique(xs[1..]));
      assert xs == [xs[0]] + xs[1..];
    }
  }
}
