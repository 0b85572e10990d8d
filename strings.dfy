/**
 * The pieces of Go's `strings` and `sort` packages that the template registry and the
 * project initialiser use: the string order of `sort.Strings`, sorting itself,
 * `strings.Fields`, `strings.Join` and index search.
 *
 * Go compares strings byte by byte on their UTF-8 encoding; that order is the order of
 * code points, which is the order of Dafny's `char` values, so `Le` compares characters.
 */
module Strings {

  // ---------------------------------------------------------------------------------
  // The order of `sort.Strings`
  // ---------------------------------------------------------------------------------

  /** `a <= b` in Go: lexicographic, a proper prefix first. */
  predicate Le(a: string, b: string)
    decreases |a|
  {
    a == [] || (b != [] && (a[0] < b[0] || (a[0] == b[0] && Le(a[1..], b[1..]))))
  }

  lemma {:induction false} LeReflexive(a: string)
    ensures Le(a, a)
    decreases |a|
  {
    if a != [] {
      LeReflexive(a[1..]);
    }
  }

  lemma {:induction false} LeTotal(a: string, b: string)
    ensures Le(a, b) || Le(b, a)
    decreases |a|
  {
    if a != [] && b != [] && a[0] == b[0] {
      LeTotal(a[1..], b[1..]);
    }
  }

  lemma {:induction false} LeAntisymmetric(a: string, b: string)
    requires Le(a, b) && Le(b, a)
    ensures a == b
    decreases |a|
  {
    if a != [] {
      LeAntisymmetric(a[1..], b[1..]);
      assert a == [a[0]] + a[1..];
      assert b == [b[0]] + b[1..];
    }
  }

  lemma {:induction false} LeTransitive(a: string, b: string, c: string)
    requires Le(a, b) && Le(b, c)
    ensures Le(a, c)
    decreases |a|
  {
    if a != [] && a[0] == b[0] && b[0] == c[0] {
      LeTransitive(a[1..], b[1..], c[1..]);
    }
  }

  // ---------------------------------------------------------------------------------
  // Sorted sequences
  // ---------------------------------------------------------------------------------

  predicate Sorted(s: seq<string>) {
    forall i, j :: 0 <= i < j < |s| ==> Le(s[i], s[j])
  }

  predicate NoDup(s: seq<string>) {
    forall i, j :: 0 <= i < j < |s| ==> s[i] != s[j]
  }

  /** Ascending with every element once: the shape of a sorted key list. */
  predicate StrictlySorted(s: seq<string>) {
    Sorted(s) && NoDup(s)
  }

  /** Inserts `x` before the first element it does not exceed. */
  function Insert(x: string, s: seq<string>): (r: seq<string>)
    ensures multiset(r) == multiset(s) + multiset{x}
    decreases |s|
  {
    if s == [] || Le(x, s[0]) then [x] + s
    else
      assert s == [s[0]] + s[1..];
      [s[0]] + Insert(x, s[1..])
  }

  lemma {:induction false} InsertSorted(x: string, s: seq<string>)
    requires Sorted(s)
    ensures Sorted(Insert(x, s))
    decreases |s|
  {
    if s == [] || Le(x, s[0]) {
      forall j | 0 <= j < |s| ensures Le(x, s[j]) {
        if j > 0 {
          LeTransitive(x, s[0], s[j]);
        }
      }
      SortedCons(x, s);
    } else {
      LeTotal(x, s[0]);
      InsertSorted(x, s[1..]);
      var tail := Insert(x, s[1..]);
      forall e | e in tail ensures Le(s[0], e) {
        assert e in multiset(tail);
        if e != x {
          assert e in s[1..];
          var j :| 0 <= j < |s[1..]| && s[1..][j] == e;
          assert s[j + 1] == e;
        }
      }
      SortedCons(s[0], tail);
    }
  }

  /** A sorted sequence stays sorted with a lower bound of all its elements put in front. */
  lemma SortedCons(h: string, s: seq<string>)
    requires Sorted(s)
    requires forall e :: e in s ==> Le(h, e)
    ensures Sorted([h] + s)
  {
    var r := [h] + s;
    forall i, j | 0 <= i < j < |r| ensures Le(r[i], r[j]) {
      assert r[j] == s[j - 1];
      if i == 0 {
        assert s[j - 1] in s;
      } else {
        assert r[i] == s[i - 1];
      }
    }
  }

  lemma {:induction false} InsertNoDup(x: string, s: seq<string>)
    requires NoDup(s) && x !in s
    ensures NoDup(Insert(x, s))
    decreases |s|
  {
    if !(s == [] || Le(x, s[0])) {
      assert x !in s[1..];
      InsertNoDup(x, s[1..]);
      var tail := Insert(x, s[1..]);
      assert s[0] !in tail by {
        assert s[0] != x;
        assert s[0] !in s[1..];
        assert s[0] !in multiset(tail);
      }
      var r := Insert(x, s);
      assert r == [s[0]] + tail;
      forall i, j | 0 <= i < j < |r| ensures r[i] != r[j] {
        assert r[j] == tail[j - 1];
        if i == 0 {
          assert tail[j - 1] in tail;
        } else {
          assert r[i] == tail[i - 1];
        }
      }
    }
  }

  /** `sort.Strings`: an ascending permutation of `s`. */
  function SortStrings(s: seq<string>): (r: seq<string>)
    ensures Sorted(r)
    ensures multiset(r) == multiset(s)
    decreases |s|
  {
    if s == [] then []
    else
      var rest := SortStrings(s[1..]);
      InsertSorted(s[0], rest);
      assert s == [s[0]] + s[1..];
      Insert(s[0], rest)
  }

  /** The ascending permutation of a sequence is unique. */
  lemma {:induction false} SortedUnique(a: seq<string>, b: seq<string>)
    requires Sorted(a) && Sorted(b) && multiset(a) == multiset(b)
    ensures a == b
    decreases |a|
  {
    assert |a| == |multiset(a)| == |multiset(b)| == |b|;
    if a != [] {
      SortedHeads(a, b);
      assert a == [a[0]] + a[1..];
      assert b == [b[0]] + b[1..];
      assert multiset(a[1..]) == multiset(b[1..]) by {
        calc {
          multiset(a[1..]);
          multiset(a) - multiset{a[0]};
          multiset(b) - multiset{b[0]};
          multiset(b[1..]);
        }
      }
      SortedTail(a);
      SortedTail(b);
      SortedUnique(a[1..], b[1..]);
    }
  }

  /** Two ascending permutations of each other start alike. */
  lemma SortedHeads(a: seq<string>, b: seq<string>)
    requires Sorted(a) && Sorted(b) && multiset(a) == multiset(b)
    requires a != [] && b != []
    ensures a[0] == b[0]
  {
    assert a[0] in multiset(b);
    var j :| 0 <= j < |b| && b[j] == a[0];
    assert b[0] in multiset(a);
    var i :| 0 <= i < |a| && a[i] == b[0];
    if j > 0 {
      assert Le(b[0], b[j]);
    } else {
      LeReflexive(b[0]);
    }
    if i > 0 {
      assert Le(a[0], a[i]);
    } else {
      LeReflexive(a[0]);
    }
    LeAntisymmetric(a[0], b[0]);
  }

  lemma SortedTail(s: seq<string>)
    requires Sorted(s) && s != []
    ensures Sorted(s[1..])
  {
    forall i, j | 0 <= i < j < |s| - 1 ensures Le(s[1..][i], s[1..][j]) {
      assert s[1..][i] == s[i + 1] && s[1..][j] == s[j + 1];
    }
  }

  lemma HeadIn(s: seq<string>)
    ensures |s| > 0 ==> s[0] in s
  {
  }

  /** A strictly sorted sequence is determined by its elements. */
  lemma {:induction false} StrictlySortedUnique(a: seq<string>, b: seq<string>)
    requires StrictlySorted(a) && StrictlySorted(b)
    requires forall x :: x in a <==> x in b
    ensures a == b
    decreases |a|
  {
    if a == [] {
      HeadIn(b);
      assert |b| == 0;
    } else {
      assert a[0] in a;
      var j :| 0 <= j < |b| && b[j] == a[0];
      assert b[0] in b;
      var i :| 0 <= i < |a| && a[i] == b[0];
      if j > 0 {
        assert Le(b[0], b[j]);
      } else {
        LeReflexive(b[0]);
      }
      if i > 0 {
        assert Le(a[0], a[i]);
      } else {
        LeReflexive(a[0]);
      }
      LeAntisymmetric(a[0], b[0]);
      forall x ensures x in a[1..] <==> x in b[1..] {
        if x in a[1..] {
          var k :| 0 <= k < |a[1..]| && a[1..][k] == x;
          assert a[k + 1] == x && a[k + 1] != a[0];
          assert x in b;
          var m :| 0 <= m < |b| && b[m] == x;
          assert m != 0;
          assert b[1..][m - 1] == x;
        }
        if x in b[1..] {
          var k :| 0 <= k < |b[1..]| && b[1..][k] == x;
          assert b[k + 1] == x && b[k + 1] != b[0];
          assert x in a;
          var m :| 0 <= m < |a| && a[m] == x;
          assert m != 0;
          assert a[1..][m - 1] == x;
        }
      }
      StrictlySortedUnique(a[1..], b[1..]);
      assert a == [a[0]] + a[1..];
      assert b == [b[0]] + b[1..];
    }
  }

  /** Sorting what is already sorted changes nothing. */
  lemma SortSorted(s: seq<string>)
    requires Sorted(s)
    ensures SortStrings(s) == s
  {
    SortedUnique(SortStrings(s), s);
  }

  /** Sorting a sorted sequence with one element appended inserts that element. */
  lemma SortAppend(s: seq<string>, x: string)
    requires Sorted(s)
    ensures SortStrings(s + [x]) == Insert(x, s)
  {
    InsertSorted(x, s);
    assert multiset(s + [x]) == multiset(s) + multiset{x};
    SortedUnique(SortStrings(s + [x]), Insert(x, s));
  }

  lemma {:induction false} NoDupCount(s: seq<string>, x: string)
    requires NoDup(s)
    ensures multiset(s)[x] <= 1
    decreases |s|
  {
    if s != [] {
      assert s == [s[0]] + s[1..];
      NoDupCount(s[1..], x);
      if x == s[0] {
        assert x !in s[1..];
      }
    }
  }

  lemma DupCount(s: seq<string>, i: nat, j: nat)
    requires i < j < |s|
    ensures s[i] == s[j] ==> multiset(s)[s[i]] >= 2
  {
    assert s == s[..j] + s[j..];
    assert s[i] == s[..j][i];
    assert s[j] == s[j..][0];
    assert multiset(s) == multiset(s[..j]) + multiset(s[j..]);
  }

  /** A permutation of a sequence without duplicates has none either. */
  lemma NoDupMultiset(a: seq<string>, b: seq<string>)
    requires NoDup(a) && multiset(a) == multiset(b)
    ensures NoDup(b)
  {
    forall i, j | 0 <= i < j < |b| ensures b[i] != b[j] {
      DupCount(b, i, j);
      NoDupCount(a, b[i]);
    }
  }

  /** The key set of a map listed in ascending order, each key once. */
  ghost function SortedKeys(keys: set<string>): (r: seq<string>)
    ensures StrictlySorted(r)
    ensures forall x :: x in r <==> x in keys
    decreases keys
  {
    if keys == {} then []
    else
      var x :| x in keys;
      var rest := SortedKeys(keys - {x});
      InsertSorted(x, rest);
      InsertNoDup(x, rest);
      assert forall y :: y in Insert(x, rest) <==> y in multiset(rest) + multiset{x};
      Insert(x, rest)
  }

  /** Whatever is strictly sorted and holds exactly `keys` is `SortedKeys(keys)`. */
  lemma SortedKeysUnique(s: seq<string>, keys: set<string>)
    requires StrictlySorted(s)
    requires forall x :: x in s <==> x in keys
    ensures s == SortedKeys(keys)
  {
    StrictlySortedUnique(s, SortedKeys(keys));
  }

  /** Appending a new key to the sorted key list and sorting again lists the enlarged key set. */
  lemma SortedKeysAppend(keys: set<string>, k: string)
    requires k !in keys
    ensures SortStrings(SortedKeys(keys) + [k]) == SortedKeys(keys + {k})
  {
    var s := SortedKeys(keys);
    var r := SortStrings(s + [k]);
    SortAppend(s, k);
    InsertNoDup(k, s);
    forall x ensures x in r <==> x in keys + {k} {
      assert x in r <==> x in multiset(r);
      assert x in s <==> x in multiset(s);
    }
    SortedKeysUnique(r, keys + {k});
  }

  // ---------------------------------------------------------------------------------
  // Searching, splitting and joining
  // ---------------------------------------------------------------------------------

  /** The index of the first `c` in `s`, or `|s|` when there is none. */
  function IndexOf(s: string, c: char): (i: nat)
    ensures i <= |s|
    ensures i < |s| ==> s[i] == c
    ensures forall j :: 0 <= j < i ==> s[j] != c
    decreases |s|
  {
    if s == [] || s[0] == c then 0 else 1 + IndexOf(s[1..], c)
  }

  /** `strings.Join`. */
  function Join(parts: seq<string>, sep: string): string
    decreases |parts|
  {
    if parts == [] then ""
    else if |parts| == 1 then parts[0]
    else parts[0] + sep + Join(parts[1..], sep)
  }

  /** `unicode.IsSpace`: the white-space code points. */
  predicate IsSpace(c: char) {
    var n := c as int;
    (9 <= n <= 13) || n == 32 || n == 0x85 || n == 0xA0 || n == 0x1680
    || (0x2000 <= n <= 0x200A) || n == 0x2028 || n == 0x2029 || n == 0x202F
    || n == 0x205F || n == 0x3000
  }

  /** The length of the run of non-space characters that starts `s`. */
  function WordEnd(s: string): (n: nat)
    ensures n <= |s|
    ensures n < |s| ==> IsSpace(s[n])
    ensures forall i :: 0 <= i < n ==> !IsSpace(s[i])
    decreases |s|
  {
    if s == [] || IsSpace(s[0]) then 0 else 1 + WordEnd(s[1..])
  }

  /**
   * `strings.Fields`: the maximal runs of non-space characters, in order. There is no
   * quoting: a field never contains white space.
   */
  function Fields(s: string): (r: seq<string>)
    ensures forall i :: 0 <= i < |r| ==> r[i] != []
    ensures forall i, j :: 0 <= i < |r| && 0 <= j < |r[i]| ==> !IsSpace(r[i][j])
    decreases |s|
  {
    if s == [] then []
    else if IsSpace(s[0]) then Fields(s[1..])
    else
      var n := WordEnd(s);
      [s[..n]] + Fields(s[n..])
  }

  /** `s` with its white space taken out. */
  function Squeeze(s: string): string
    decreases |s|
  {
    if s == [] then "" else (if IsSpace(s[0]) then "" else [s[0]]) + Squeeze(s[1..])
  }

  function Concat(parts: seq<string>): string
    decreases |parts|
  {
    if parts == [] then "" else parts[0] + Concat(parts[1..])
  }

  lemma {:induction false} SqueezeAppend(a: string, b: string)
    ensures Squeeze(a + b) == Squeeze(a) + Squeeze(b)
    decreases |a|
  {
    if a == [] {
      assert a + b == b;
    } else {
      assert (a + b)[0] == a[0];
      assert (a + b)[1..] == a[1..] + b;
      SqueezeAppend(a[1..], b);
    }
  }

  lemma {:induction false} SqueezeWord(w: string)
    requires forall i :: 0 <= i < |w| ==> !IsSpace(w[i])
    ensures Squeeze(w) == w
    decreases |w|
  {
    if w != [] {
      SqueezeWord(w[1..]);
      assert w == [w[0]] + w[1..];
    }
  }

  /** The fields, put back together, are the non-space characters of `s` in order. */
  lemma {:induction false} FieldsConcat(s: string)
    ensures Concat(Fields(s)) == Squeeze(s)
    decreases |s|
  {
    if s != [] {
      if IsSpace(s[0]) {
        FieldsConcat(s[1..]);
      } else {
        var n := WordEnd(s);
        FieldsConcat(s[n..]);
        assert s == s[..n] + s[n..];
        SqueezeAppend(s[..n], s[n..]);
        SqueezeWord(s[..n]);
      }
    }
  }

  predicate AllSpace(g: string) {
    forall i :: 0 <= i < |g| ==> IsSpace(g[i])
  }

  /** The runs of white space around and between the fields of `s`: one more than there are fields. */
  function Gaps(s: string): seq<string>
    decreases |s|
  {
    if s == [] then [""]
    else if IsSpace(s[0]) then
      var g := Gaps(s[1..]);
      [[s[0]] + g[0]] + g[1..]
    else [""] + Gaps(s[WordEnd(s)..])
  }

  /** `gaps[0] + fields[0] + gaps[1] + ... + fields[n - 1] + gaps[n]`. */
  function Weave(gaps: seq<string>, fields: seq<string>): string
    requires |gaps| == |fields| + 1
    decreases |fields|
  {
    if fields == [] then gaps[0] else gaps[0] + fields[0] + Weave(gaps[1..], fields[1..])
  }

  /**
   * The fields are the maximal runs of non-space characters: `s` is the fields in order
   * with white space before, between and after them, and at least one white-space
   * character between two fields.
   */
  lemma {:induction false} FieldsSeparated(s: string)
    ensures |Gaps(s)| == |Fields(s)| + 1
    ensures forall i :: 0 <= i < |Gaps(s)| ==> AllSpace(Gaps(s)[i])
    ensures forall i :: 0 < i < |Gaps(s)| - 1 ==> Gaps(s)[i] != []
    ensures Weave(Gaps(s), Fields(s)) == s
    decreases |s|
  {
    if s == [] {
    } else if IsSpace(s[0]) {
      FieldsSeparated(s[1..]);
      SpaceSeparated(s);
    } else {
      FieldsSeparated(s[WordEnd(s)..]);
      WordSeparated(s);
    }
  }

  /** The conclusion of `FieldsSeparated`, for one text. */
  predicate Separated(s: string) {
    var g := Gaps(s);
    && |g| == |Fields(s)| + 1
    && (forall i :: 0 <= i < |g| ==> AllSpace(g[i]))
    && (forall i :: 0 < i < |g| - 1 ==> g[i] != [])
    && Weave(g, Fields(s)) == s
  }

  /** A leading white-space character widens the first gap. */
  lemma SpaceSeparated(s: string)
    requires s != [] && IsSpace(s[0]) && Separated(s[1..])
    ensures Separated(s)
  {
    var g := Gaps(s[1..]);
    assert AllSpace([s[0]] + g[0]) by {
      assert AllSpace(g[0]);
    }
    WeaveFront([s[0]], g, Fields(s[1..]));
    assert s == [s[0]] + s[1..];
  }

  /** A leading word is the first field, after an empty gap. */
  lemma WordSeparated(s: string)
    requires s != [] && !IsSpace(s[0]) && Separated(s[WordEnd(s)..])
    ensures Separated(s)
  {
    var n := WordEnd(s);
    var g := Gaps(s[n..]);
    var f := Fields(s[n..]);
    if f != [] {
      assert s[n..] != [] && IsSpace(s[n..][0]);
      assert g[0] != [];
    }
    assert Gaps(s) == [""] + g;
    assert Fields(s) == [s[..n]] + f;
    assert Weave([""] + g, [s[..n]] + f) == "" + s[..n] + Weave(g, f);
    assert s == s[..n] + s[n..];
  }

  /** Widening the first gap widens the woven text at its front. */
  lemma WeaveFront(c: string, gaps: seq<string>, fields: seq<string>)
    requires |gaps| == |fields| + 1
    ensures Weave([c + gaps[0]] + gaps[1..], fields) == c + Weave(gaps, fields)
  {
    if fields != [] {
      var wide := [c + gaps[0]] + gaps[1..];
      assert wide[1..] == gaps[1..];
      var tail := Weave(gaps[1..], fields[1..]);
      assert (c + gaps[0]) + fields[0] + tail == c + (gaps[0] + fields[0] + tail);
    }
  }

  /** There are no fields exactly when `s` is all white space. */
  lemma {:induction false} FieldsEmpty(s: string)
    ensures Fields(s) == [] <==> forall i :: 0 <= i < |s| ==> IsSpace(s[i])
    decreases |s|
  {
    if s != [] && IsSpace(s[0]) {
      FieldsEmpty(s[1..]);
      assert forall i :: 1 <= i < |s| ==> s[i] == s[1..][i - 1];
    }
  }
}
