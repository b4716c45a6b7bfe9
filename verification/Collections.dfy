/** Facts about sequences, sets and maps, stated for elements about which nothing else is known. */
module Collections {

  datatype Option<T> = None | Some(value: T)

  ghost predicate NoDuplicates<T>(s: seq<T>) {
    forall i, j :: 0 <= i < j < |s| ==> s[i] != s[j]
  }

  lemma WithoutFirst<T>(s: seq<T>)
    requires s != [] && NoDuplicates(s)
    ensures NoDuplicates(s[1..]) && s[0] !in s[1..]
    ensures forall x :: x in s[1..] <==> x in s && x != s[0]
  {
    assert s == [s[0]] + s[1..];
  }

  lemma WithLast<T>(s: seq<T>, x: T)
    requires NoDuplicates(s) && x !in s
    ensures NoDuplicates(s + [x])
    ensures forall y :: y in s + [x] <==> y in s || y == x
  {
  }

  lemma SubsetSize<T>(v: set<T>, w: set<T>)
    requires v <= w
    ensures |v| <= |w|
  {
    assert w == v + (w - v);
  }

  lemma MapUpdated<K, V>(m: map<K, V>, m': map<K, V>, k: K)
    requires m'.Keys == m.Keys + {k}
    requires forall j :: j in m.Keys - {k} ==> m'[j] == m[j]
    ensures m' == m[k := m'[k]]
  {
  }

  lemma MapWithout<K, V>(m: map<K, V>, m': map<K, V>, k: K)
    requires m'.Keys == m.Keys - {k}
    requires forall j :: j in m' ==> m'[j] == m[j]
    ensures m' == m - {k}
  {
  }
}
