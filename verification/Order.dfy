/** Sorted enumeration of finite sets, and the byte-wise order of store keys. */
module Order {
  import opened Bitwise

  type Bytes = seq<byte>

  ghost predicate StrictTotal<T(!new)>(less: (T, T) -> bool) {
    && (forall x :: !less(x, x))
    && (forall x, y, z :: less(x, y) && less(y, z) ==> less(x, z))
    && (forall x, y :: less(x, y) || x == y || less(y, x))
  }

  lemma {:induction false} LeastExists<T(!new)>(s: set<T>, less: (T, T) -> bool) returns (m: T)
    requires StrictTotal(less) && s != {}
    ensures m in s && forall x :: x in s && x != m ==> less(m, x)
    decreases s
  {
    m :| m in s;
    if s - {m} != {} {
      var other := LeastExists(s - {m}, less);
      if less(other, m) {
        m := other;
      }
    }
  }

  /** The elements of s in increasing order. */
  function Ascending<T(!new)>(s: set<T>, less: (T, T) -> bool): (r: seq<T>)
    requires StrictTotal(less)
    ensures |r| == |s| && forall x :: x in r <==> x in s
    ensures forall i, j :: 0 <= i < j < |r| ==> less(r[i], r[j])
    decreases s
  {
    if s == {} then []
    else
      assert exists m :: m in s && forall x :: x in s && x != m ==> less(m, x) by {
        var m := LeastExists(s, less);
      }
      var m :| m in s && forall x :: x in s && x != m ==> less(m, x);
      [m] + Ascending(s - {m}, less)
  }

  /** The order of keys in the key-value store. */
  predicate Before(a: Bytes, b: Bytes)
    decreases |a|
  {
    if b == [] then false
    else if a == [] then true
    else a[0] < b[0] || (a[0] == b[0] && Before(a[1..], b[1..]))
  }

  lemma {:induction false} BeforeIrreflexive(a: Bytes)
    ensures !Before(a, a)
    decreases |a|
  {
    if a == [] {
    } else {
      BeforeIrreflexive(a[1..]);
    }
  }

  lemma {:induction false} BeforeTransitive(a: Bytes, b: Bytes, c: Bytes)
    requires Before(a, b) && Before(b, c)
    ensures Before(a, c)
    decreases |a|
  {
    if a != [] && a[0] == b[0] && b[0] == c[0] {
      BeforeTransitive(a[1..], b[1..], c[1..]);
    }
  }

  lemma {:induction false} BeforeTotal(a: Bytes, b: Bytes)
    ensures Before(a, b) || a == b || Before(b, a)
    decreases |a|
  {
    if a != [] && b != [] && a[0] == b[0] {
      BeforeTotal(a[1..], b[1..]);
      assert a == [a[0]] + a[1..] && b == [b[0]] + b[1..];
    }
  }

  lemma BeforeIsStrictTotal()
    ensures StrictTotal<Bytes>(Before)
  {
    hide Before;
    forall x: Bytes
      ensures !Before(x, x)
    {
      BeforeIrreflexive(x);
    }
    forall x: Bytes, y: Bytes, z: Bytes | Before(x, y) && Before(y, z)
      ensures Before(x, z)
    {
      BeforeTransitive(x, y, z);
    }
    forall x: Bytes, y: Bytes
      ensures Before(x, y) || x == y || Before(y, x)
    {
      BeforeTotal(x, y);
    }
  }

  /** The keys of s in store order. */
  function SortedKeys(s: set<Bytes>): (r: seq<Bytes>)
    ensures |r| == |s| && forall x :: x in r <==> x in s
    ensures forall i, j :: 0 <= i < j < |r| ==> Before(r[i], r[j]) && r[i] != r[j]
  {
    BeforeIsStrictTotal();
    Ascending(s, Before)
  }
}
