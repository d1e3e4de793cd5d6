/** The byte-wise comparison of path names that orders the map registry. */
module StringOrder {

  /** strcmp: the sign of the first difference; a proper prefix comes first. */
  function StrCmp(a: string, b: string): int {
    if a == [] && b == [] then 0
    else if a == [] then -1
    else if b == [] then 1
    else if a[0] == b[0] then StrCmp(a[1..], b[1..])
    else a[0] as int - b[0] as int
  }

  lemma {:induction false} StrCmpEqual(a: string, b: string)
    ensures StrCmp(a, b) == 0 <==> a == b
  {
    if a != [] && b != [] && a[0] == b[0] {
      StrCmpEqual(a[1..], b[1..]);
      assert a == [a[0]] + a[1..] && b == [b[0]] + b[1..];
    }
  }

  lemma {:induction false} StrCmpFlip(a: string, b: string)
    ensures StrCmp(a, b) < 0 <==> StrCmp(b, a) > 0
  {
    if a != [] && b != [] && a[0] == b[0] {
      StrCmpFlip(a[1..], b[1..]);
    }
  }

  lemma {:induction false} StrCmpTransitive(a: string, b: string, c: string)
    requires StrCmp(a, b) < 0 && StrCmp(b, c) < 0
    ensures StrCmp(a, c) < 0
  {
    if a != [] && b != [] && c != [] && a[0] == b[0] == c[0] {
      StrCmpTransitive(a[1..], b[1..], c[1..]);
    }
  }

  /** One name comes first if it is a proper prefix of the other one or has the smaller character where they first differ. */
  lemma {:induction false} StrCmpFirst(a: string, b: string)
    ensures StrCmp(a, b) < 0 <==> a < b || exists k :: FirstDifference(a, b, k) && a[k] < b[k]
  {
    if a != [] && b != [] && a[0] == b[0] {
      StrCmpFirst(a[1..], b[1..]);
      assert a < b <==> a[1..] < b[1..];
      if k :| FirstDifference(a[1..], b[1..], k) && a[1..][k] < b[1..][k] {
        assert FirstDifference(a, b, k + 1);
      }
      if k :| FirstDifference(a, b, k) && a[k] < b[k] {
        LaterDifference(a, b, k);
      }
    } else if a != [] && b != [] {
      assert FirstDifference(a, b, 0);
      forall k | FirstDifference(a, b, k)
        ensures k == 0
      {
      }
    }
  }

  ghost predicate FirstDifference(a: string, b: string, k: int) {
    0 <= k < |a| && k < |b| && a[k] != b[k] && forall j :: 0 <= j < k ==> a[j] == b[j]
  }

  lemma LaterDifference(a: string, b: string, k: int)
    requires FirstDifference(a, b, k) && a[0] == b[0]
    ensures FirstDifference(a[1..], b[1..], k - 1)
  {
  }
}
