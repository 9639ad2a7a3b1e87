/** Strings as Go sees them: byte sequences (one char per byte), compared byte by
    byte, sorted with `sort.Strings` and joined with `strings.Join`. */
module Text {

  /** Go's `a < b` on strings: lexicographic over bytes, a proper prefix first. */
  predicate Below(a: string, b: string)
    decreases |a|
  {
    if |a| == 0 then |b| > 0
    else if |b| == 0 then false
    else if a[0] != b[0] then a[0] < b[0]
    else Below(a[1..], b[1..])
  }

  lemma {:induction false} BelowIrreflexive(a: string)
    ensures !Below(a, a)
  {
    if |a| > 0 { BelowIrreflexive(a[1..]); }
  }

  lemma {:induction false} BelowTransitive(a: string, b: string, c: string)
    requires Below(a, b) && Below(b, c)
    ensures Below(a, c)
  {
    if |a| > 0 && a[0] == b[0] && b[0] == c[0] {
      BelowTransitive(a[1..], b[1..], c[1..]);
    }
  }

  /** Any two different strings are ordered one way or the other. */
  lemma {:induction false} BelowTotal(a: string, b: string)
    ensures a == b || Below(a, b) || Below(b, a)
  {
    if |a| > 0 && |b| > 0 && a[0] == b[0] {
      BelowTotal(a[1..], b[1..]);
      assert a == [a[0]] + a[1..] && b == [b[0]] + b[1..];
    }
  }

  lemma {:induction false} BelowAsymmetric(a: string, b: string)
    requires Below(a, b)
    ensures !Below(b, a)
  {
    if |a| > 0 && a[0] == b[0] { BelowAsymmetric(a[1..], b[1..]); }
  }

  /** "Not below" is transitive: a <= b <= c gives a <= c. */
  lemma AtMostTransitive(a: string, b: string, c: string)
    requires !Below(b, a) && !Below(c, b)
    ensures !Below(c, a)
  {
    BelowTotal(a, b);
    BelowTotal(b, c);
    if a != b && b != c { BelowTransitive(a, b, c); }
    if Below(a, c) { BelowAsymmetric(a, c); } else { BelowIrreflexive(a); }
  }

  /** Ascending in Go's order; equal neighbours allowed. */
  predicate Sorted(s: seq<string>)
  {
    forall i, j :: 0 <= i < j < |s| ==> !Below(s[j], s[i])
  }

  /** The insertion step of the sort `sort.Strings` stands for. */
  function Insert(x: string, s: seq<string>): seq<string>
  {
    if s == [] || !Below(s[0], x) then [x] + s
    else [s[0]] + Insert(x, s[1..])
  }

  lemma {:induction false} InsertSorted(x: string, s: seq<string>)
    requires Sorted(s)
    ensures Sorted(Insert(x, s)) && multiset(Insert(x, s)) == multiset(s) + multiset{x}
  {
    if s == [] {
    } else if !Below(s[0], x) {
      forall j | 0 <= j < |s| ensures !Below(s[j], x) {
        if j > 0 { AtMostTransitive(x, s[0], s[j]); }
      }
      PrependSorted(x, s);
    } else {
      InsertSorted(x, s[1..]);
      var t := Insert(x, s[1..]);
      assert s == [s[0]] + s[1..];
      forall j | 0 <= j < |t| ensures !Below(t[j], s[0]) {
        assert t[j] in multiset(t);
        if t[j] == x {
          BelowAsymmetric(s[0], x);
        } else {
          assert t[j] in multiset(s[1..]);
          var k :| 0 <= k < |s[1..]| && s[1..][k] == t[j];
          assert t[j] == s[k + 1];
        }
      }
      PrependSorted(s[0], t);
    }
  }

  /** Putting an element no greater than the first in front keeps a sequence sorted. */
  lemma PrependSorted(x: string, s: seq<string>)
    requires Sorted(s)
    requires forall j :: 0 <= j < |s| ==> !Below(s[j], x)
    ensures Sorted([x] + s)
  {
    var r := [x] + s;
    forall i, j | 0 <= i < j < |r| ensures !Below(r[j], r[i]) {
      if i > 0 { assert r[i] == s[i - 1] && r[j] == s[j - 1]; }
    }
  }

  /** Go's `sort.Strings`, as an insertion sort. */
  function SortStrings(s: seq<string>): seq<string>
  {
    if s == [] then [] else Insert(s[0], SortStrings(s[1..]))
  }

  lemma {:induction false} SortStringsCorrect(s: seq<string>)
    ensures Sorted(SortStrings(s)) && multiset(SortStrings(s)) == multiset(s)
  {
    if s != [] {
      SortStringsCorrect(s[1..]);
      InsertSorted(s[0], SortStrings(s[1..]));
      assert s == [s[0]] + s[1..];
    }
  }

  lemma SortedTail(s: seq<string>)
    requires Sorted(s) && s != []
    ensures Sorted(s[1..])
  {
    forall i, j | 0 <= i < j < |s| - 1 ensures !Below(s[1..][j], s[1..][i]) {
      assert s[1..][j] == s[j + 1] && s[1..][i] == s[i + 1];
    }
  }

  /** Two sorted arrangements of one multiset start with the same element. */
  lemma SortedSameHead(a: seq<string>, b: seq<string>)
    requires Sorted(a) && Sorted(b) && multiset(a) == multiset(b) && a != [] && b != []
    ensures a[0] == b[0]
  {
    assert a[0] in multiset(b) && b[0] in multiset(a);
    var i :| 0 <= i < |a| && a[i] == b[0];
    var j :| 0 <= j < |b| && b[j] == a[0];
    BelowIrreflexive(a[0]);
    BelowIrreflexive(b[0]);
    assert !Below(b[0], a[0]) by { if i > 0 { assert !Below(a[i], a[0]); } }
    assert !Below(a[0], b[0]) by { if j > 0 { assert !Below(b[j], b[0]); } }
    BelowTotal(a[0], b[0]);
  }

  /** A multiset has only one sorted arrangement: whatever order the input came
      in, sorting gives the same sequence. */
  lemma {:induction false} SortedUnique(a: seq<string>, b: seq<string>)
    requires Sorted(a) && Sorted(b) && multiset(a) == multiset(b)
    ensures a == b
  {
    assert |b| == |multiset(b)| == |a|;
    if a != [] {
      SortedSameHead(a, b);
      assert a == [a[0]] + a[1..] && b == [b[0]] + b[1..];
      assert multiset(a[1..]) == multiset(a) - multiset{a[0]};
      assert multiset(b[1..]) == multiset(b) - multiset{b[0]};
      SortedTail(a);
      SortedTail(b);
      SortedUnique(a[1..], b[1..]);
    }
  }

  /** `sort.Strings` agrees on any two arrangements of the same strings. */
  lemma SortStringsPermutationInvariant(a: seq<string>, b: seq<string>)
    requires multiset(a) == multiset(b)
    ensures SortStrings(a) == SortStrings(b)
  {
    SortStringsCorrect(a);
    SortStringsCorrect(b);
    SortedUnique(SortStrings(a), SortStrings(b));
  }

  /** `x` is an element of `s` nothing in `s` is below. */
  predicate IsLeast(x: string, s: set<string>)
  {
    x in s && forall y :: y in s ==> !Below(y, x)
  }

  /** The least element of a finite non-empty set exists. */
  lemma {:induction false} LeastExists(s: set<string>)
    requires s != {}
    ensures exists x :: IsLeast(x, s)
    decreases |s|
  {
    var z :| z in s;
    if s == {z} {
      BelowIrreflexive(z);
      assert IsLeast(z, s);
    } else {
      var t := s - {z};
      LeastExists(t);
      var x :| IsLeast(x, t);
      if Below(z, x) {
        forall y | y in s ensures !Below(y, z) {
          if y == z {
            BelowIrreflexive(z);
          } else {
            assert !Below(y, x);
            BelowTotal(x, y);
            if x != y { BelowTransitive(z, x, y); BelowAsymmetric(z, y); } else { BelowAsymmetric(z, x); }
          }
        }
        assert IsLeast(z, s);
      } else {
        assert IsLeast(x, s);
      }
    }
  }

  /** Ascending with no element twice. */
  predicate StrictlySorted(s: seq<string>)
  {
    forall i, j :: 0 <= i < j < |s| ==> Below(s[i], s[j])
  }

  /** The elements of a set in ascending order: the order `sort.Strings` gives to
      the keys of a map however they were enumerated. */
  ghost function SortedSet(s: set<string>): (r: seq<string>)
    ensures Sorted(r) && StrictlySorted(r) && multiset(r) == multiset(s)
    decreases |s|
  {
    if s == {} then []
    else
      LeastExists(s);
      var x :| IsLeast(x, s);
      var rest := SortedSet(s - {x});
      PrependLeast(x, s, rest);
      [x] + rest
  }

  /** Putting the least element of `s` in front of the sorted rest of `s`. */
  lemma PrependLeast(x: string, s: set<string>, rest: seq<string>)
    requires IsLeast(x, s)
    requires Sorted(rest) && StrictlySorted(rest) && multiset(rest) == multiset(s - {x})
    ensures Sorted([x] + rest) && StrictlySorted([x] + rest) && multiset([x] + rest) == multiset(s)
  {
    forall j | 0 <= j < |rest| ensures Below(x, rest[j]) && !Below(rest[j], x) {
      assert rest[j] in multiset(s - {x});
      BelowTotal(x, rest[j]);
    }
    BelowIrreflexive(x);
    PrependSorted(x, rest);
    var r := [x] + rest;
    forall i, j | 0 <= i < j < |r| ensures Below(r[i], r[j]) {
      if i > 0 { assert r[i] == rest[i - 1] && r[j] == rest[j - 1]; }
    }
    assert s == (s - {x}) + {x};
    assert multiset(s) == multiset(s - {x}) + multiset{x};
  }

  /** Go's `strings.Join`. */
  function Join(parts: seq<string>, sep: string): string
  {
    if |parts| == 0 then ""
    else if |parts| == 1 then parts[0]
    else parts[0] + sep + Join(parts[1..], sep)
  }

  lemma {:induction false} JoinAppend(a: seq<string>, b: seq<string>, sep: string)
    requires |a| > 0 && |b| > 0
    ensures Join(a + b, sep) == Join(a, sep) + sep + Join(b, sep)
  {
    if |a| == 1 {
      assert (a + b)[1..] == b;
    } else {
      assert (a + b)[1..] == a[1..] + b;
      JoinAppend(a[1..], b, sep);
    }
  }

  predicate Free(s: string, c: char)
  {
    forall i :: 0 <= i < |s| ==> s[i] != c
  }

  /** Index of the first `c` in `s`, or `|s|` when there is none. */
  function FirstIndexOf(s: string, c: char): (n: nat)
    ensures n <= |s|
  {
    if |s| == 0 || s[0] == c then 0 else 1 + FirstIndexOf(s[1..], c)
  }

  lemma {:induction false} FirstIndexOfPrefix(x: string, rest: string, c: char)
    requires Free(x, c)
    requires rest == [] || rest[0] == c
    ensures FirstIndexOf(x + rest, c) == |x|
  {
    if |x| > 0 {
      assert (x + rest)[1..] == x[1..] + rest;
      FirstIndexOfPrefix(x[1..], rest, c);
    }
  }

  /** How a join with a one-character separator starts: its first part, then
      (when there are more) the separator and the join of the rest. */
  lemma JoinHead(xs: seq<string>, c: char)
    requires |xs| > 0 && Free(xs[0], c)
    ensures var j := Join(xs, [c]);
      && FirstIndexOf(j, c) == |xs[0]|
      && j[..|xs[0]|] == xs[0]
      && (|xs| == 1 <==> |j| == |xs[0]|)
      && (|xs| > 1 ==> j[|xs[0]| + 1..] == Join(xs[1..], [c]))
  {
    if |xs| == 1 {
      FirstIndexOfPrefix(xs[0], [], c);
      assert xs[0] + [] == xs[0];
    } else {
      FirstIndexOfPrefix(xs[0], [c] + Join(xs[1..], [c]), c);
      assert Join(xs, [c]) == xs[0] + ([c] + Join(xs[1..], [c]));
    }
  }

  /** Joining with a one-character separator that no part contains loses
      nothing: the parts can be read back. */
  lemma {:induction false} JoinInjective(xs: seq<string>, ys: seq<string>, c: char)
    requires |xs| > 0 && |ys| > 0
    requires forall i :: 0 <= i < |xs| ==> Free(xs[i], c)
    requires forall i :: 0 <= i < |ys| ==> Free(ys[i], c)
    requires Join(xs, [c]) == Join(ys, [c])
    ensures xs == ys
  {
    JoinHead(xs, c);
    JoinHead(ys, c);
    assert |xs[0]| == |ys[0]| && xs[0] == ys[0];
    if |xs| > 1 {
      JoinInjective(xs[1..], ys[1..], c);
      assert xs == [xs[0]] + xs[1..] && ys == [ys[0]] + ys[1..];
    }
  }

  /** Go's `m[k]` on a `map[string]string`: the zero value for a missing key. */
  function Lookup(m: map<string, string>, k: string): string
  {
    if k in m then m[k] else ""
  }

  /** Adding a new element to a set adds one copy of it to its multiset. */
  lemma SetInsertMultiset(s: set<string>, x: string)
    requires x !in s
    ensures multiset(s + {x}) == multiset(s) + multiset{x}
  {
    forall y ensures multiset(s + {x})[y] == (multiset(s) + multiset{x})[y] {
    }
  }

  /** Visiting one more element `x` of the unvisited `rest` adds one copy of it
      to the visited ones. */
  lemma VisitElement(all: set<string>, rest: set<string>, x: string)
    requires x in rest && rest <= all
    ensures multiset(all - (rest - {x})) == multiset(all - rest) + multiset{x}
  {
    assert all - (rest - {x}) == (all - rest) + {x};
    SetInsertMultiset(all - rest, x);
  }

  /** The k-th image is the image of the k-th element. */
  function MapSeq<A, B>(f: A -> B, s: seq<A>): (r: seq<B>)
    ensures |r| == |s| && forall k {:trigger r[k]} :: 0 <= k < |s| ==> r[k] == f(s[k])
  {
    if s == [] then [] else [f(s[0])] + MapSeq(f, s[1..])
  }

  lemma MapSeqAppend<A, B>(f: A -> B, a: seq<A>, b: seq<A>)
    ensures MapSeq(f, a + b) == MapSeq(f, a) + MapSeq(f, b)
  {
  }

  /** Taking the `j`-th element out of a sequence takes one copy of it out of
      the sequence's multiset. */
  lemma RemoveAt(b: seq<string>, j: int)
    requires 0 <= j < |b|
    ensures b == b[..j] + [b[j]] + b[j + 1..]
    ensures multiset(b[..j] + b[j + 1..]) == multiset(b) - multiset{b[j]}
  {
    var l, r := b[..j], b[j + 1..];
    assert b == l + [b[j]] + r;
    assert multiset(b) == multiset(l) + multiset{b[j]} + multiset(r);
  }

  /** ... and one copy of its image out of the images' multiset. */
  lemma MapSeqRemoveAt(f: string -> string, b: seq<string>, j: int)
    requires 0 <= j < |b|
    ensures multiset(MapSeq(f, b[..j] + b[j + 1..])) + multiset{f(b[j])} == multiset(MapSeq(f, b))
  {
    var l, r := b[..j], b[j + 1..];
    RemoveAt(b, j);
    var x := f(b[j]);
    MapSeqAppend(f, l + [b[j]], r);
    MapSeqAppend(f, l, [b[j]]);
    MapSeqAppend(f, l, r);
    assert MapSeq(f, [b[j]]) == [x];
    var fl, fr := MapSeq(f, l), MapSeq(f, r);
    assert multiset(MapSeq(f, b)) == multiset(fl) + multiset{x} + multiset(fr);
  }

  /** Images of two arrangements of the same elements are arrangements of the
      same images. */
  lemma {:induction false} MapSeqPermutation(f: string -> string, a: seq<string>, b: seq<string>)
    requires multiset(a) == multiset(b)
    ensures multiset(MapSeq(f, a)) == multiset(MapSeq(f, b))
    decreases |a|
  {
    if a != [] {
      assert a[0] in multiset(b);
      var j :| 0 <= j < |b| && b[j] == a[0];
      var b' := b[..j] + b[j + 1..];
      RemoveAt(b, j);
      RemoveAt(a, 0);
      assert a[..0] + a[1..] == a[1..];
      MapSeqPermutation(f, a[1..], b');
      MapSeqRemoveAt(f, b, j);
      MapSeqRemoveAt(f, a, 0);
    }
  }
}
