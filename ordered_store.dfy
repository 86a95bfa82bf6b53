/**
 * The ordered key/value index (a B-tree) that the journal index extends.
 *
 * Only the part of the B-tree's behaviour that the journal index relies on is
 * modelled: the entries form a strictly ascending sequence of keys with a
 * parallel sequence of values, `IndexOf` reports an exact hit as a position
 * `p >= 0` and a miss as `-(insertionPoint + 1)`, and `Contains` is the exact
 * existence test. Keys are already-encoded commit times (see `Journal.GetKey`).
 */
module OrderedStore {
  import opened Int64

  /** The B-tree keeps its keys strictly ascending, so no key occurs twice. */
  ghost predicate Ascending(keys: seq<Long>) {
    forall i, j :: 0 <= i < j < |keys| ==> keys[i] < keys[j]
  }

  /**
   * The first position whose key is not less than `k`: where `k` is stored, or
   * where it would have to be inserted to keep the keys in order.
   */
  function InsertionPoint(keys: seq<Long>, k: Long): (ip: nat)
    ensures ip <= |keys|
    ensures forall i :: 0 <= i < ip ==> keys[i] < k
    ensures ip < |keys| ==> k <= keys[ip]
  {
    if |keys| == 0 || k <= keys[0] then 0 else 1 + InsertionPoint(keys[1..], k)
  }

  /** In ascending keys everything from the insertion point on is at least `k`. */
  lemma InsertionPointSplits(keys: seq<Long>, k: Long)
    requires Ascending(keys)
    ensures forall i :: InsertionPoint(keys, k) <= i < |keys| ==> k <= keys[i]
  {
  }

  /**
   * The B-tree's `indexOf`: the position of `k` on an exact hit, otherwise the
   * negative number `-(ip + 1)` that encodes the insertion point `ip`.
   */
  function IndexOf(keys: seq<Long>, k: Long): (r: int)
    requires Ascending(keys)
    ensures 0 <= r ==> r < |keys| && keys[r] == k
    ensures r < 0 <==> k !in keys
    ensures r < 0 ==> 0 <= -(r + 1) <= |keys|
    ensures r < 0 ==> forall i :: 0 <= i < -(r + 1) ==> keys[i] < k
    ensures r < 0 ==> forall i :: -(r + 1) <= i < |keys| ==> k < keys[i]
  {
    var ip := InsertionPoint(keys, k);
    InsertionPointSplits(keys, k);
    if ip < |keys| && keys[ip] == k then ip else -(ip + 1)
  }

  /** The B-tree's exact existence test. */
  function Contains(keys: seq<Long>, k: Long): (b: bool)
    requires Ascending(keys)
    ensures b <==> k in keys
  {
    IndexOf(keys, k) >= 0
  }

  /** `s` with `x` placed at position `i`, everything from `i` on moved up by one. */
  function InsertAt<T>(s: seq<T>, i: nat, x: T): (r: seq<T>)
    requires i <= |s|
  {
    s[..i] + [x] + s[i..]
  }

  /** What `InsertAt` leaves where: the prefix, the new element, the shifted suffix. */
  lemma InsertAtIndex<T>(s: seq<T>, i: nat, x: T)
    requires i <= |s|
    ensures |InsertAt(s, i, x)| == |s| + 1
    ensures forall j :: 0 <= j < i ==> InsertAt(s, i, x)[j] == s[j]
    ensures InsertAt(s, i, x)[i] == x
    ensures forall j :: i < j <= |s| ==> InsertAt(s, i, x)[j] == s[j - 1]
  {
  }

  /** Inserting adds exactly the new element and loses none of the old ones. */
  lemma InsertAtMembers<T>(s: seq<T>, i: nat, x: T)
    requires i <= |s|
    ensures forall y :: y in InsertAt(s, i, x) <==> y in s || y == x
  {
  }

  /** Inserting a missing key at its insertion point keeps the keys strictly ascending. */
  lemma InsertKeepsAscending(keys: seq<Long>, k: Long)
    requires Ascending(keys)
    requires k !in keys
    ensures Ascending(InsertAt(keys, InsertionPoint(keys, k), k))
  {
  }

  /**
   * Strictly ascending keys are determined by the set they hold: position `i`
   * holds the `i`-th smallest key, whatever order the keys were added in.
   */
  lemma {:induction false} AscendingUnique(a: seq<Long>, b: seq<Long>)
    requires Ascending(a) && Ascending(b)
    requires forall x :: x in a <==> x in b
    ensures a == b
  {
    if a == [] {
      assert forall i :: 0 <= i < |b| ==> b[i] in a;
    } else {
      assert b != [] by {
        assert a[0] in b;
      }
      assert a[0] == b[0] by {
        assert a[0] in b && b[0] in a;
      }
      forall x
        ensures x in a[1..] <==> x in b[1..]
      {
        assert x in a[1..] <==> x in a && x != a[0];
        assert x in b[1..] <==> x in b && x != b[0];
      }
      AscendingUnique(a[1..], b[1..]);
      assert a == [a[0]] + a[1..] && b == [b[0]] + b[1..];
    }
  }
}
