/** The ordering Python's `sorted` uses on the `(preference, exchange)` pairs
    of mxsniffer/__init__.py:73-74: tuples compare element by element, and
    strings compare by character code, a proper prefix first. */
module Order {

  /** A resolved MX record after normalisation: (preference, exchange). */
  type Record = (nat, string)

  /** `a <= b` on Python strings. */
  predicate StrLe(a: string, b: string)
  {
    a == [] || (b != [] && (a[0] < b[0] || (a[0] == b[0] && StrLe(a[1..], b[1..]))))
  }

  /** `x <= y` on `(preference, exchange)` tuples. */
  predicate RecordLe(x: Record, y: Record)
  {
    x.0 < y.0 || (x.0 == y.0 && StrLe(x.1, y.1))
  }

  lemma {:induction false} StrLeTotal(a: string, b: string)
    ensures StrLe(a, b) || StrLe(b, a)
  {
    if a != [] && b != [] && a[0] == b[0] {
      StrLeTotal(a[1..], b[1..]);
    }
  }

  lemma {:induction false} StrLeAntisymmetric(a: string, b: string)
    requires StrLe(a, b) && StrLe(b, a)
    ensures a == b
  {
    if a != [] {
      StrLeAntisymmetric(a[1..], b[1..]);
      assert a == [a[0]] + a[1..] && b == [b[0]] + b[1..];
    }
  }

  lemma {:induction false} StrLeTransitive(a: string, b: string, c: string)
    requires StrLe(a, b) && StrLe(b, c)
    ensures StrLe(a, c)
  {
    if a != [] && a[0] == b[0] && b[0] == c[0] {
      StrLeTransitive(a[1..], b[1..], c[1..]);
    }
  }

  lemma RecordLeTotal(x: Record, y: Record)
    ensures RecordLe(x, y) || RecordLe(y, x)
  {
    StrLeTotal(x.1, y.1);
  }

  lemma RecordLeAntisymmetric(x: Record, y: Record)
    requires RecordLe(x, y) && RecordLe(y, x)
    ensures x == y
  {
    StrLeAntisymmetric(x.1, y.1);
  }

  lemma RecordLeTransitive(x: Record, y: Record, z: Record)
    requires RecordLe(x, y) && RecordLe(y, z)
    ensures RecordLe(x, z)
  {
    if x.0 == y.0 == z.0 {
      StrLeTransitive(x.1, y.1, z.1);
    }
  }

  predicate IsSorted(s: seq<Record>)
  {
    forall i, j :: 0 <= i < j < |s| ==> RecordLe(s[i], s[j])
  }

  /** Insert `x` into the sorted `s`. */
  function Insert(x: Record, s: seq<Record>): (r: seq<Record>)
    requires IsSorted(s)
    ensures IsSorted(r)
    ensures multiset(r) == multiset(s) + multiset{x}
  {
    if s == [] then [x]
    else if RecordLe(x, s[0]) then
      forall j | 0 < j < |s| ensures RecordLe(x, s[j]) {
        RecordLeTransitive(x, s[0], s[j]);
      }
      [x] + s
    else
      RecordLeTotal(x, s[0]);
      var tail := Insert(x, s[1..]);
      assert s == [s[0]] + s[1..];
      assert forall k :: 0 <= k < |tail| ==> RecordLe(s[0], tail[k]) by {
        forall k | 0 <= k < |tail| ensures RecordLe(s[0], tail[k]) {
          assert tail[k] in multiset(tail);
        }
      }
      [s[0]] + tail
  }

  /** `sorted(records)`: the records in ascending tuple order. Any sorting
      algorithm gives this same sequence (see SortedUnique). */
  function Sort(s: seq<Record>): (r: seq<Record>)
    ensures IsSorted(r)
    ensures multiset(r) == multiset(s)
  {
    if s == [] then []
    else
      assert s == [s[0]] + s[1..];
      Insert(s[0], Sort(s[1..]))
  }

  /** The tail of a sorted sequence is sorted. */
  lemma SortedTail(s: seq<Record>)
    requires s != [] && IsSorted(s)
    ensures IsSorted(s[1..])
  {
    forall i, j | 0 <= i < j < |s| - 1 ensures RecordLe(s[1..][i], s[1..][j]) {
      assert s[1..][i] == s[i + 1] && s[1..][j] == s[j + 1];
    }
  }

  lemma MultisetTail<T>(a: seq<T>, b: seq<T>)
    requires a != [] && b != [] && a[0] == b[0] && multiset(a) == multiset(b)
    ensures multiset(a[1..]) == multiset(b[1..])
  {
    assert a == [a[0]] + a[1..] && b == [b[0]] + b[1..];
    assert multiset(a[1..]) == multiset(a) - multiset{a[0]};
    assert multiset(b[1..]) == multiset(b) - multiset{b[0]};
  }

  lemma SortedSameHead(a: seq<Record>, b: seq<Record>)
    requires a != [] && b != []
    requires IsSorted(a) && IsSorted(b) && multiset(a) == multiset(b)
    ensures a[0] == b[0]
  {
    assert a[0] in multiset(b) && b[0] in multiset(a);
    var i :| 0 <= i < |a| && a[i] == b[0];
    var j :| 0 <= j < |b| && b[j] == a[0];
    if i != 0 && j != 0 {
      assert RecordLe(a[0], a[i]) && RecordLe(b[0], b[j]);
      RecordLeAntisymmetric(a[0], b[0]);
    }
  }

  /** The sorted permutation is unique: the tuple order is total, so `sorted`
      leaves no freedom, and in particular records of equal preference are
      ordered by exchange name, not by the order the resolver gave them. */
  lemma {:induction false} SortedUnique(a: seq<Record>, b: seq<Record>)
    requires IsSorted(a) && IsSorted(b) && multiset(a) == multiset(b)
    ensures a == b
  {
    assert |b| == |multiset(b)| == |multiset(a)| == |a|;
    if a != [] {
      SortedSameHead(a, b);
      MultisetTail(a, b);
      SortedTail(a);
      SortedTail(b);
      SortedUnique(a[1..], b[1..]);
      assert a == [a[0]] + a[1..] && b == [b[0]] + b[1..];
    }
  }
}
