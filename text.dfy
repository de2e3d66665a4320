/**
 * The string primitives the section-structuring code relies on, restricted to
 * ASCII: Python's `isdigit`, `isupper`, `isspace` (and the regex class `\s`),
 * `strip`, `find`, `replace(x, "")`, `split`, `join`, `str(int)` and `int(str)`.
 */
module Text {
  import opened Results

  predicate IsDigit(c: char) { '0' <= c <= '9' }

  predicate IsUpper(c: char) { 'A' <= c <= 'Z' }

  /** Python's whitespace for ASCII: space, \t \n \v \f \r and the separators 0x1C-0x1F. */
  predicate IsSpace(c: char) { c == ' ' || 9 <= c as int <= 13 || 28 <= c as int <= 31 }

  predicate AllDigits(s: string) { forall i :: 0 <= i < |s| ==> IsDigit(s[i]) }

  predicate AllSpace(s: string) { forall i :: 0 <= i < |s| ==> IsSpace(s[i]) }

  /**
   * The index just past the last non-whitespace character of `s[a..j]`, or
   * `a` when there is none.
   */
  function TrimEnd(s: string, a: nat, j: nat): (b: nat)
    requires a <= j <= |s|
    ensures a <= b <= j
    ensures forall i :: b <= i < j ==> IsSpace(s[i])
    ensures b == a || !IsSpace(s[b - 1])
    decreases j
  {
    if j > a && IsSpace(s[j - 1]) then TrimEnd(s, a, j - 1) else j
  }

  /** `str.lstrip()` */
  function LStrip(s: string): (r: string)
    ensures |r| <= |s| && r == s[|s| - |r|..]
    ensures r == [] || !IsSpace(r[0])
    ensures forall i :: 0 <= i < |s| - |r| ==> IsSpace(s[i])
  {
    s[SpaceEnd(s, 0)..]
  }

  /** `str.rstrip()` */
  function RStrip(s: string): (r: string)
    ensures |r| <= |s| && r == s[..|r|]
    ensures r == [] || !IsSpace(r[|r| - 1])
    ensures forall i :: |r| <= i < |s| ==> IsSpace(s[i])
  {
    s[..TrimEnd(s, 0, |s|)]
  }

  /** Where `str.strip()` ends: past the last non-whitespace character. */
  function StripEnd(s: string): nat
  {
    TrimEnd(s, SpaceEnd(s, 0), |s|)
  }

  /** `str.strip()`: the piece of `s` between its leading and its trailing whitespace. */
  function Strip(s: string): (r: string)
  {
    s[SpaceEnd(s, 0)..StripEnd(s)]
  }

  /** The two halves of a concatenation, taken back apart. */
  lemma ConcatHalves<T>(a: seq<T>, b: seq<T>)
    ensures (a + b)[..|a|] == a && (a + b)[|a|..] == b
  {
  }

  /** `str.strip()` keeps a contiguous piece of its input, has only whitespace around it and none at its ends. */
  lemma StripSpec(s: string)
    ensures var a := SpaceEnd(s, 0); var b := StripEnd(s);
      && a <= b <= |s| && Strip(s) == s[a..b]
      && (forall i :: 0 <= i < a ==> IsSpace(s[i]))
      && (forall i :: b <= i < |s| ==> IsSpace(s[i]))
    ensures var r := Strip(s); r == [] || (!IsSpace(r[0]) && !IsSpace(r[|r| - 1]))
  {
  }

  /** Stripping a slice keeps a slice of the same string. */
  lemma StripInfix(s: string, lo: nat, hi: nat) returns (a: nat, b: nat)
    requires lo <= hi <= |s|
    ensures lo <= a <= b <= hi && Strip(s[lo..hi]) == s[a..b]
  {
    var t := s[lo..hi];
    a, b := lo + SpaceEnd(t, 0), lo + StripEnd(t);
  }

  /** A string without edge whitespace is its own strip. */
  lemma StripTrimmed(s: string)
    requires s == [] || (!IsSpace(s[0]) && !IsSpace(s[|s| - 1]))
    ensures Strip(s) == s
  {
    if s != [] {
      assert SpaceEnd(s, 0) == 0;
    }
  }

  /** Stripping introduces no character. */
  lemma StripChars(s: string, x: char)
    requires x !in s
    ensures x !in Strip(s)
  {
  }

  /** `str.lstrip(c)` for one character */
  function LStripChar(s: string, c: char): (r: string)
    ensures |r| <= |s| && r == s[|s| - |r|..]
    ensures r == [] || r[0] != c
  {
    if |s| > 0 && s[0] == c then LStripChar(s[1..], c) else s
  }

  /** `str.rstrip(c)` for one character */
  function RStripChar(s: string, c: char): (r: string)
    ensures |r| <= |s| && r == s[..|r|]
    ensures r == [] || r[|r| - 1] != c
  {
    if |s| > 0 && s[|s| - 1] == c then RStripChar(s[..|s| - 1], c) else s
  }

  /** `str.strip(c)` for one character */
  function StripChar(s: string, c: char): string
  {
    RStripChar(LStripChar(s, c), c)
  }

  /** `p` occurs in `s` at index `k`. */
  predicate OccursAt(s: string, p: string, k: int)
  {
    0 <= k && k + |p| <= |s| && s[k..k + |p|] == p
  }

  /**
   * `s.find(p, start)` for a non-negative `start`: the first index at or after
   * `start` where `p` occurs, or -1.
   */
  function FindFrom(s: string, p: string, start: nat): (r: int)
    ensures r == -1 || (start <= r && OccursAt(s, p, r))
    ensures r != -1 ==> forall k :: start <= k < r ==> !OccursAt(s, p, k)
    ensures r == -1 ==> forall k :: start <= k ==> !OccursAt(s, p, k)
    decreases |s| - start
  {
    if start + |p| > |s| then -1
    else if s[start..start + |p|] == p then start
    else FindFrom(s, p, start + 1)
  }

  /** `s.find(p)` */
  function Find(s: string, p: string): int
  {
    FindFrom(s, p, 0)
  }

  /** `p` does not occur in `s` at any index below `i`. */
  predicate NotBefore(s: string, p: string, i: int)
  {
    forall k :: 0 <= k < i ==> !OccursAt(s, p, k)
  }

  /** `find` reports the first occurrence. */
  lemma FindFirst(s: string, p: string, i: nat)
    requires OccursAt(s, p, i) && NotBefore(s, p, i)
    ensures Find(s, p) == i
  {
  }

  /** `find` reports -1 when `p` occurs nowhere. */
  lemma FindNone(s: string, p: string)
    requires NotBefore(s, p, |s| - |p| + 1)
    ensures Find(s, p) == -1
  {
  }

  /** `s.find(p, start)` for any `start`: a negative start counts from the end of `s`. */
  function PyFindFrom(s: string, p: string, start: int): (r: int)
    ensures r == -1 || (0 <= r && OccursAt(s, p, r))
  {
    FindFrom(s, p, if start >= 0 then start else Clamp(start + |s|, |s|))
  }

  /**
   * The scan `for i in range(len(s)): if s[i:].startswith(p)`: like `find`,
   * except that it never reports a match in an empty string.
   */
  function ScanFor(s: string, p: string): (r: int)
    ensures r == -1 || (0 <= r < |s| && p <= s[r..])
    ensures r != -1 ==> forall k :: 0 <= k < r ==> !(p <= s[k..])
    ensures r == -1 ==> forall k :: 0 <= k < |s| ==> !(p <= s[k..])
  {
    if |s| == 0 then -1
    else
      var r := Find(s, p);
      assert forall k :: 0 <= k < |s| ==> (p <= s[k..] <==> OccursAt(s, p, k));
      r
  }

  /** `s.replace(p, "")`: deletes the non-overlapping occurrences of `p`, left to right. */
  function DeleteAll(s: string, p: string): (r: string)
    ensures |r| <= |s|
    decreases |s|
  {
    if p == [] || |s| < |p| then s
    else if p <= s then DeleteAll(s[|p|..], p)
    else [s[0]] + DeleteAll(s[1..], p)
  }

  /** Deleting a string that does not occur changes nothing. */
  lemma {:induction false} DeleteAbsent(s: string, p: string)
    requires forall k :: !OccursAt(s, p, k)
    ensures DeleteAll(s, p) == s
    decreases |s|
  {
    if p == [] || |s| < |p| {
    } else {
      assert !OccursAt(s, p, 0);
      assert s[0..|p|] == s[..|p|];
      assert !(p <= s);
      forall k ensures !OccursAt(s[1..], p, k) {
        if 0 <= k && k + |p| <= |s[1..]| {
          assert s[1..][k..k + |p|] == s[k + 1..k + 1 + |p|];
          assert !OccursAt(s, p, k + 1);
        }
      }
      DeleteAbsent(s[1..], p);
      assert [s[0]] + s[1..] == s;
    }
  }

  /** Deleting never introduces a character. */
  lemma {:induction false} DeleteAllChars(s: string, p: string, x: char)
    requires x !in s
    ensures x !in DeleteAll(s, p)
    decreases |s|
  {
    if p != [] && |s| >= |p| {
      if p <= s {
        DeleteAllChars(s[|p|..], p, x);
      } else {
        DeleteAllChars(s[1..], p, x);
      }
    }
  }

  /** Deleting a single character removes every occurrence of it. */
  lemma {:induction false} DeleteCharRemovesIt(s: string, c: char)
    ensures c !in DeleteAll(s, [c])
    decreases |s|
  {
    if |s| >= 1 {
      DeleteCharRemovesIt(s[1..], c);
    }
  }

  /** Characters `i` and `i + 1` of `t` are not both whitespace. */
  predicate NoDoubleSpaceAt(t: string, i: int)
    requires 0 <= i < |t| - 1
  {
    !(IsSpace(t[i]) && IsSpace(t[i + 1]))
  }

  /** `re.sub(r"\s+", " ", s)`: every maximal run of whitespace becomes one space. */
  function SqueezeSpace(s: string): (r: string)
    ensures forall i :: 0 <= i < |r| && IsSpace(r[i]) ==> r[i] == ' '
    ensures forall i :: 0 <= i < |r| - 1 ==> NoDoubleSpaceAt(r, i)
    ensures |r| > 0 <==> |s| > 0
    ensures |r| > 0 ==> (IsSpace(r[0]) <==> IsSpace(s[0]))
    decreases |s|
  {
    if s == [] then []
    else if IsSpace(s[0]) then
      var rest := LStrip(s);
      assert |rest| < |s|;
      var t := SqueezeSpace(rest);
      PrependNoDoubleSpace(' ', t);
      " " + t
    else
      var t := SqueezeSpace(s[1..]);
      PrependNoDoubleSpace(s[0], t);
      [s[0]] + t
  }

  lemma PrependNoDoubleSpace(c: char, t: string)
    requires forall i :: 0 <= i < |t| - 1 ==> NoDoubleSpaceAt(t, i)
    requires !(IsSpace(c) && |t| > 0 && IsSpace(t[0]))
    ensures forall i :: 0 <= i < |t| ==> NoDoubleSpaceAt([c] + t, i)
  {
    var r := [c] + t;
    forall i | 0 <= i < |t| ensures NoDoubleSpaceAt(r, i) {
      if i > 0 {
        assert NoDoubleSpaceAt(t, i - 1);
      }
    }
  }

  /** `re.sub(r"\s+", " ", s).strip()`: whitespace normalisation. */
  function Collapse(s: string): string
  {
    Strip(SqueezeSpace(s))
  }

  /** Whitespace normalisation introduces no character other than the space. */
  lemma {:induction false} SqueezeSpaceChars(s: string, x: char)
    requires x !in s && x != ' '
    ensures x !in SqueezeSpace(s)
    decreases |s|
  {
    if |s| > 0 {
      SqueezeSpaceChars(s[1..], x);
    }
  }

  lemma CollapseChars(s: string, x: char)
    requires x !in s && x != ' '
    ensures x !in Collapse(s)
  {
    SqueezeSpaceChars(s, x);
    StripChars(SqueezeSpace(s), x);
  }

  /** Text in normal form: single spaces between words, none at either end. */
  predicate Normalized(t: string)
  {
    && (forall i :: 0 <= i < |t| && IsSpace(t[i]) ==> t[i] == ' ')
    && (forall i :: 0 <= i < |t| - 1 ==> NoDoubleSpaceAt(t, i))
    && (|t| > 0 ==> !IsSpace(t[0]) && !IsSpace(t[|t| - 1]))
  }

  /** Whitespace normalisation produces normal form. */
  lemma CollapseNormalized(s: string)
    ensures Normalized(Collapse(s))
  {
    StripSqueezed(SqueezeSpace(s));
  }

  lemma StripSqueezed(q: string)
    requires forall i :: 0 <= i < |q| && IsSpace(q[i]) ==> q[i] == ' '
    requires forall i :: 0 <= i < |q| - 1 ==> NoDoubleSpaceAt(q, i)
    ensures Normalized(Strip(q))
  {
    StripSpec(q);
    var r := Strip(q);
    var a := SpaceEnd(q, 0);
    assert forall i :: 0 <= i < |r| ==> r[i] == q[a + i];
    assert forall i :: 0 <= i < |r| && IsSpace(r[i]) ==> r[i] == ' ';
    forall i | 0 <= i < |r| - 1 ensures NoDoubleSpaceAt(r, i) {
      assert NoDoubleSpaceAt(q, a + i);
    }
  }

  /** Text already in normal form is left alone by the squeeze. */
  lemma {:induction false} SqueezeNormalFixed(t: string)
    requires forall i :: 0 <= i < |t| && IsSpace(t[i]) ==> t[i] == ' '
    requires forall i :: 0 <= i < |t| - 1 ==> NoDoubleSpaceAt(t, i)
    ensures SqueezeSpace(t) == t
    decreases |t|
  {
    if t != [] {
      forall i | 0 <= i < |t[1..]| - 1 ensures NoDoubleSpaceAt(t[1..], i) {
        assert NoDoubleSpaceAt(t, i + 1);
      }
    }
    if t == [] {
    } else if IsSpace(t[0]) {
      if |t| > 1 {
        assert NoDoubleSpaceAt(t, 0);
        assert SpaceEnd(t, 1) == 1;
        assert LStrip(t) == t[1..];
      } else {
        assert LStrip(t) == [];
      }
      SqueezeNormalFixed(t[1..]);
      assert t == " " + t[1..];
    } else {
      SqueezeNormalFixed(t[1..]);
      assert t == [t[0]] + t[1..];
    }
  }

  /** Whitespace normalisation is idempotent. */
  lemma CollapseIdempotent(s: string)
    ensures Collapse(Collapse(s)) == Collapse(s)
  {
    var t := Collapse(s);
    CollapseNormalized(s);
    SqueezeNormalFixed(t);
    StripTrimmed(t);
  }

  /** Text in normal form is a fixed point of whitespace normalisation. */
  lemma CollapseNormalFixed(t: string)
    requires Normalized(t)
    ensures Collapse(t) == t
  {
    SqueezeNormalFixed(t);
    StripTrimmed(t);
  }

  /** `s.split(c, 1)`: the part before the first `c`, and the rest when there is a `c`. */
  function SplitOnce(s: string, c: char): (r: (string, Option<string>))
    ensures c !in r.0
    ensures r.1.None? ==> r.0 == s
    ensures r.1.Some? ==> s == r.0 + [c] + r.1.value
  {
    if s == [] then ("", None)
    else if s[0] == c then ("", Some(s[1..]))
    else
      var t := SplitOnce(s[1..], c);
      ([s[0]] + t.0, t.1)
  }

  /** The first `c` of `t + [c] + rest` is the one after `t` when `t` holds none. */
  lemma {:induction false} SplitOnceAt(t: string, c: char, rest: string)
    requires c !in t
    ensures SplitOnce(t + [c] + rest, c) == (t, Some(rest))
  {
    if t != [] {
      var s := t + [c] + rest;
      assert s[0] == t[0] != c;
      assert s[1..] == t[1..] + [c] + rest;
      assert c !in t[1..];
      SplitOnceAt(t[1..], c, rest);
      assert [t[0]] + t[1..] == t;
    }
  }

  /** A string without `c` does not split. */
  lemma SplitOnceWithout(t: string, c: char)
    requires c !in t
    ensures SplitOnce(t, c) == (t, None)
  {
  }

  /** `s.split(c)` */
  function Split(s: string, c: char): (r: seq<string>)
    ensures |r| >= 1
  {
    if s == [] then [""]
    else
      var t := Split(s[1..], c);
      if s[0] == c then [""] + t else [[s[0]] + t[0]] + t[1..]
  }

  /** `c.join(parts)` */
  function Join(parts: seq<string>, c: char): string
  {
    if |parts| == 0 then ""
    else if |parts| == 1 then parts[0]
    else parts[0] + [c] + Join(parts[1..], c)
  }

  lemma {:induction false} SplitPrefix(a: string, rest: string, c: char)
    requires c !in a
    ensures Split(a + rest, c) == [a + Split(rest, c)[0]] + Split(rest, c)[1..]
    decreases |a|
  {
    if a != [] {
      assert (a + rest)[1..] == a[1..] + rest;
      SplitPrefix(a[1..], rest, c);
      assert [a[0]] + (a[1..] + Split(rest, c)[0]) == a + Split(rest, c)[0];
    } else {
      assert a + rest == rest;
      assert a + Split(rest, c)[0] == Split(rest, c)[0];
      assert Split(rest, c) == [Split(rest, c)[0]] + Split(rest, c)[1..];
    }
  }

  /** Splitting a join gives back the parts when no part holds the separator. */
  lemma {:induction false} SplitJoin(parts: seq<string>, c: char)
    requires |parts| >= 1
    requires forall k :: 0 <= k < |parts| ==> c !in parts[k]
    ensures Split(Join(parts, c), c) == parts
    decreases |parts|
  {
    if |parts| == 1 {
      SplitPrefix(parts[0], "", c);
      assert parts[0] + "" == parts[0];
    } else {
      SplitJoin(parts[1..], c);
      assert Join(parts, c) == parts[0] + ([c] + Join(parts[1..], c));
      var tail := [c] + Join(parts[1..], c);
      SplitPrefix(parts[0], tail, c);
      assert tail[1..] == Join(parts[1..], c);
      assert Split(tail, c) == [""] + parts[1..];
      assert parts[0] + "" == parts[0];
      assert parts == [parts[0]] + parts[1..];
    }
  }

  /** A string without the separator splits into itself. */
  lemma SplitNoSeparator(s: string, c: char)
    requires c !in s
    ensures Split(s, c) == [s]
  {
    SplitPrefix(s, "", c);
    assert s + "" == s;
  }

  /** Joining the parts of a split gives back the string. */
  lemma {:induction false} JoinSplit(s: string, c: char)
    ensures Join(Split(s, c), c) == s
    decreases |s|
  {
    if s != [] {
      JoinSplit(s[1..], c);
      var t := Split(s[1..], c);
      if s[0] == c {
        assert [""] + t == [""] + t[0..];
        assert Join([""] + t, c) == "" + [c] + Join(t, c);
        assert s == [c] + s[1..];
      } else if |t| == 1 {
        assert s == [s[0]] + s[1..];
      } else {
        var r := [[s[0]] + t[0]] + t[1..];
        assert r[1..] == t[1..];
        assert Join(t, c) == t[0] + [c] + Join(t[1..], c);
        assert Join(r, c) == ([s[0]] + t[0]) + [c] + Join(t[1..], c);
        assert s == [s[0]] + s[1..];
      }
    }
  }

  /** Appending a separator and a part without separators appends that part to the split. */
  lemma {:induction false} SplitSnoc(x: string, y: string, c: char)
    requires c !in y
    ensures Split(x + [c] + y, c) == Split(x, c) + [y]
    decreases |x|
  {
    if x == [] {
      assert x + [c] + y == [c] + y;
      assert ([c] + y)[1..] == y;
      SplitNoSeparator(y, c);
    } else {
      var s := x + [c] + y;
      assert s[1..] == x[1..] + [c] + y;
      SplitSnoc(x[1..], y, c);
      SplitStep(x[0], Split(x[1..], c), y, c);
    }
  }

  /** The first character's step of `Split`, with one more part at the end. */
  lemma SplitStep(h: char, t: seq<string>, y: string, c: char)
    requires |t| >= 1
    ensures (if h == c then [""] + (t + [y]) else [[h] + (t + [y])[0]] + (t + [y])[1..])
         == (if h == c then [""] + t else [[h] + t[0]] + t[1..]) + [y]
  {
    assert (t + [y])[1..] == t[1..] + [y];
  }

  function DigitChar(d: nat): (c: char)
    requires d < 10
    ensures IsDigit(c)
  {
    ('0' as int + d) as char
  }

  function DigitValue(c: char): (d: nat)
    requires IsDigit(c)
    ensures d < 10
  {
    c as int - '0' as int
  }

  /** `str(n)` for a non-negative integer */
  function NatToString(n: nat): (s: string)
    ensures |s| > 0 && AllDigits(s)
  {
    if n < 10 then [DigitChar(n)] else NatToString(n / 10) + [DigitChar(n % 10)]
  }

  /** `int(s)` for a string of ASCII digits (leading zeros allowed) */
  function ParseNat(s: string): nat
    requires AllDigits(s)
  {
    if s == [] then 0 else ParseNat(s[..|s| - 1]) * 10 + DigitValue(s[|s| - 1])
  }

  /** `int(str(n)) == n` */
  lemma {:induction false} ParseNatToString(n: nat)
    ensures ParseNat(NatToString(n)) == n
  {
    var s := NatToString(n);
    if n >= 10 {
      ParseNatToString(n / 10);
      assert s[..|s| - 1] == NatToString(n / 10);
    }
  }

  /** End of the run of digits that starts at `i`. */
  function DigitsEnd(s: string, i: nat): (e: nat)
    requires i <= |s|
    ensures i <= e <= |s| && forall k :: i <= k < e ==> IsDigit(s[k])
    ensures e == |s| || !IsDigit(s[e])
    decreases |s| - i
  {
    if i < |s| && IsDigit(s[i]) then DigitsEnd(s, i + 1) else i
  }

  /** End of the run of dots that starts at `i` (the regex `\.*`). */
  function DotsEnd(s: string, i: nat): (e: nat)
    requires i <= |s|
    ensures i <= e <= |s| && forall k :: i <= k < e ==> s[k] == '.'
    ensures e == |s| || s[e] != '.'
    decreases |s| - i
  {
    if i < |s| && s[i] == '.' then DotsEnd(s, i + 1) else i
  }

  /**
   * End of the greedy match of the regex `\d+(\.\d+)*` at `i`: a run of
   * digits, then as long as a dot is followed by a digit, the dot and the
   * next run of digits.
   */
  function ChainEnd(s: string, i: nat): (e: nat)
    requires i < |s| && IsDigit(s[i])
    ensures i < e <= |s| && IsDigit(s[e - 1])
    ensures forall k :: i <= k < e ==> IsDigit(s[k]) || s[k] == '.'
    ensures e == |s| || !IsDigit(s[e])
    ensures !(e + 1 < |s| && s[e] == '.' && IsDigit(s[e + 1]))
    decreases |s| - i
  {
    var d := DigitsEnd(s, i);
    if d + 1 < |s| && s[d] == '.' && IsDigit(s[d + 1]) then ChainEnd(s, d + 1) else d
  }

  /**
   * `s[i..e]` is a whole match of the regex `\d+(\.\d+)*`: it starts and
   * ends with a digit, and every dot in it is followed by a digit.
   */
  predicate ChainAt(s: string, i: nat, e: nat)
  {
    && i < e <= |s| && IsDigit(s[i]) && IsDigit(s[e - 1])
    && (forall k :: i <= k < e ==> IsDigit(s[k]) || s[k] == '.')
    && (forall k :: i <= k < e && s[k] == '.' ==> k + 1 < e && IsDigit(s[k + 1]))
  }

  /** The greedy match is a match. */
  lemma {:induction false} ChainEndIsChain(s: string, i: nat)
    requires i < |s| && IsDigit(s[i])
    ensures ChainAt(s, i, ChainEnd(s, i))
    decreases |s| - i
  {
    var d := DigitsEnd(s, i);
    assert forall k :: i <= k < d ==> IsDigit(s[k]) by {
      forall k | i <= k < d ensures IsDigit(s[k]) {
        assert s[i..d][k - i] == s[k];
      }
    }
    if d + 1 < |s| && s[d] == '.' && IsDigit(s[d + 1]) {
      ChainEndIsChain(s, d + 1);
    }
  }

  /** A match continues past its first non-digit, which is a dot. */
  lemma ChainAtDot(s: string, i: nat, e: nat, d: nat)
    requires ChainAt(s, i, e) && i <= d < e && !IsDigit(s[d])
    ensures s[d] == '.' && ChainAt(s, d + 1, e)
  {
  }

  /** A match that cannot be extended is the greedy match. */
  lemma {:induction false} ChainEndUnique(s: string, i: nat, e: nat)
    requires ChainAt(s, i, e)
    requires e == |s| || !IsDigit(s[e])
    requires !(e + 1 < |s| && s[e] == '.' && IsDigit(s[e + 1]))
    ensures ChainEnd(s, i) == e
    decreases |s| - i
  {
    var d := DigitsEnd(s, i);
    if d < e {
      ChainAtDot(s, i, e, d);
      ChainEndUnique(s, d + 1, e);
    }
  }

  /** No match of the numbering pattern at `i` reaches past the greedy one. */
  lemma {:induction false} ChainAtWithin(s: string, i: nat, x: nat)
    requires ChainAt(s, i, x)
    ensures x <= ChainEnd(s, i)
    decreases |s| - i
  {
    var d := DigitsEnd(s, i);
    if d < x {
      ChainAtDot(s, i, x, d);
      ChainAtWithin(s, d + 1, x);
    }
  }

  /** End of the run of whitespace that starts at `i` (the regex `\s*`). */
  function SpaceEnd(s: string, i: nat): (e: nat)
    requires i <= |s|
    ensures i <= e <= |s| && forall k :: i <= k < e ==> IsSpace(s[k])
    ensures e == |s| || !IsSpace(s[e])
    decreases |s| - i
  {
    if i < |s| && IsSpace(s[i]) then SpaceEnd(s, i + 1) else i
  }

  /** End of a line: the first newline at or after `i`, or the end (the regex `.*`). */
  function LineEnd(s: string, i: nat): (e: nat)
    requires i <= |s|
    ensures i <= e <= |s| && forall k :: i <= k < e ==> s[k] != '\n'
    ensures e == |s| || s[e] == '\n'
    decreases |s| - i
  {
    if i < |s| && s[i] != '\n' then LineEnd(s, i + 1) else i
  }

  /** The regex `.+` can match at or after `i` after optional whitespace: some non-newline character remains. */
  predicate HasLineCharFrom(s: string, i: nat)
    requires i <= |s|
    decreases |s| - i
  {
    i < |s| && (s[i] != '\n' || HasLineCharFrom(s, i + 1))
  }

  /** Python slicing `s[a:b]` with negative indices counted from the end. */
  function Slice(s: string, a: int, b: int): (r: string)
    ensures |r| <= |s|
  {
    var lo := Clamp(if a < 0 then a + |s| else a, |s|);
    var hi := Clamp(if b < 0 then b + |s| else b, |s|);
    if lo < hi then s[lo..hi] else ""
  }

  /** A slice between two indices inside the string. */
  lemma SliceInside(s: string, a: int, b: int)
    requires 0 <= a <= b <= |s|
    ensures Slice(s, a, b) == s[a..b]
  {
  }

  /** `s[a:-1]`: up to, not including, the last character. */
  lemma SliceToLast(s: string, a: int)
    requires s != [] && 0 <= a <= |s|
    ensures Slice(s, a, -1) == if a < |s| - 1 then s[a..|s| - 1] else ""
  {
  }

  /** A Python slice is a contiguous piece of the string. */
  lemma SliceInfix(s: string, a: int, b: int) returns (lo: nat, hi: nat)
    ensures lo <= hi <= |s| && Slice(s, a, b) == s[lo..hi]
  {
    lo := Clamp(if a < 0 then a + |s| else a, |s|);
    hi := Clamp(if b < 0 then b + |s| else b, |s|);
    if hi < lo {
      hi := lo;
    }
  }

  function Clamp(x: int, n: nat): (r: nat)
    ensures r <= n
  {
    if x < 0 then 0 else if x > n then n else x
  }
}
