/** The abstract contents of the tree: its in-order sequence of (key, value)
    entries, and the two reference operations on such sequences that insertion
    and removal are measured against. */
module Entries {
  import opened StringOrder

  /** One past the largest `size_t` on a 64-bit target. */
  const SizeTLimit: int := 0x1_0000_0000_0000_0000

  /** The tree's value type, `size_t`. */
  type Value = v: nat | v < SizeTLimit

  datatype Entry = Entry(key: string, value: Value)

  /** Keys strictly ascending: what an in-order walk of a search tree yields. */
  ghost predicate Sorted(s: seq<Entry>)
  {
    forall i, j :: 0 <= i < j < |s| ==> Less(s[i].key, s[j].key)
  }

  /** No entry of `s` has key `k`. */
  ghost predicate Absent(s: seq<Entry>, k: string)
  {
    forall i :: 0 <= i < |s| ==> s[i].key != k
  }

  /** Every key of `s` is below `k`. */
  ghost predicate AllBelow(s: seq<Entry>, k: string)
  {
    forall i :: 0 <= i < |s| ==> Less(s[i].key, k)
  }

  /** Every key of `s` is above `k`. */
  ghost predicate AllAbove(s: seq<Entry>, k: string)
  {
    forall i :: 0 <= i < |s| ==> Less(k, s[i].key)
  }

  function KeysOf(s: seq<Entry>): seq<string>
  {
    seq(|s|, i requires 0 <= i < |s| => s[i].key)
  }

  lemma ConcatAssoc(a: seq<Entry>, b: seq<Entry>, c: seq<Entry>)
    ensures (a + b) + c == a + (b + c)
  {
  }

  /** Reference insertion: `e` goes in front of the first entry whose key is
      above its own. */
  ghost function InsertSorted(s: seq<Entry>, e: Entry): seq<Entry>
  {
    if s == [] then [e]
    else if Less(e.key, s[0].key) then [e] + s
    else [s[0]] + InsertSorted(s[1..], e)
  }

  /** Reference deletion: the first entry with key `k` is dropped. */
  ghost function DeleteKey(s: seq<Entry>, k: string): seq<Entry>
  {
    if s == [] then []
    else if s[0].key == k then s[1..]
    else [s[0]] + DeleteKey(s[1..], k)
  }

  /** Inserting a key below the first key of `c` leaves `c` untouched. */
  lemma {:induction false} InsertSortedIntoLeft(a: seq<Entry>, c: seq<Entry>, e: Entry)
    requires c != [] && Less(e.key, c[0].key)
    ensures InsertSorted(a + c, e) == InsertSorted(a, e) + c
  {
    if a == [] {
      assert a + c == c;
    } else {
      assert (a + c)[0] == a[0];
      assert (a + c)[1..] == a[1..] + c;
      if !Less(e.key, a[0].key) {
        InsertSortedIntoLeft(a[1..], c, e);
      }
    }
  }

  /** Inserting a key that no key of `a` is above leaves `a` untouched. */
  lemma {:induction false} InsertSortedIntoRight(a: seq<Entry>, c: seq<Entry>, e: Entry)
    requires forall i :: 0 <= i < |a| ==> !Less(e.key, a[i].key)
    ensures InsertSorted(a + c, e) == a + InsertSorted(c, e)
  {
    if a == [] {
      assert a + c == c;
    } else {
      assert (a + c)[0] == a[0];
      assert (a + c)[1..] == a[1..] + c;
      InsertSortedIntoRight(a[1..], c, e);
    }
  }

  /** The entries after insertion are the old ones and `e`. */
  lemma {:induction false} InsertSortedElements(s: seq<Entry>, e: Entry)
    ensures |InsertSorted(s, e)| == |s| + 1
    ensures multiset(InsertSorted(s, e)) == multiset(s) + multiset{e}
  {
    if s != [] && !Less(e.key, s[0].key) {
      InsertSortedElements(s[1..], e);
      assert s == [s[0]] + s[1..];
    }
  }

  /** Into a sorted sequence without key `e.key`, `InsertSorted` puts `e` in its
      sorted position: the result is sorted and holds exactly the old entries
      plus `e`. */
  lemma {:induction false} InsertSortedSpec(s: seq<Entry>, e: Entry)
    requires Sorted(s) && Absent(s, e.key)
    ensures Sorted(InsertSorted(s, e))
    ensures multiset(InsertSorted(s, e)) == multiset(s) + multiset{e}
  {
    InsertSortedElements(s, e);
    if s != [] {
      if Less(e.key, s[0].key) {
        var r := [e] + s;
        forall i, j | 0 <= i < j < |r| ensures Less(r[i].key, r[j].key) {
          if i > 0 {
            assert r[i] == s[i - 1] && r[j] == s[j - 1];
          } else if j > 1 {
            LessTransitive(e.key, s[0].key, s[j - 1].key);
          }
        }
      } else {
        LessTotal(e.key, s[0].key);
        assert Sorted(s[1..]) && Absent(s[1..], e.key);
        InsertSortedSpec(s[1..], e);
        var tail := InsertSorted(s[1..], e);
        SmallestOfUnion(s, e, tail);
        var r := [s[0]] + tail;
        forall i, j | 0 <= i < j < |r| ensures Less(r[i].key, r[j].key) {
          if i > 0 {
            assert r[i] == tail[i - 1] && r[j] == tail[j - 1];
          } else {
            assert r[j] == tail[j - 1];
          }
        }
      }
    }
  }

  /** A helper of `InsertSortedSpec`: the head of a sorted sequence is below
      every entry of a rearrangement of its tail and a larger `e`. */
  lemma SmallestOfUnion(s: seq<Entry>, e: Entry, tail: seq<Entry>)
    requires s != [] && Sorted(s) && Less(s[0].key, e.key)
    requires multiset(tail) == multiset(s[1..]) + multiset{e}
    ensures forall j :: 0 <= j < |tail| ==> Less(s[0].key, tail[j].key)
  {
    forall j | 0 <= j < |tail| ensures Less(s[0].key, tail[j].key) {
      assert tail[j] in multiset(tail);
      if tail[j] != e {
        assert tail[j] in multiset(s[1..]);
        var k :| 0 <= k < |s[1..]| && s[1..][k] == tail[j];
        assert s[k + 1] == tail[j];
      }
    }
  }

  /** Deleting a key that `b` lacks leaves `b` untouched. */
  lemma {:induction false} DeleteKeyFromLeft(a: seq<Entry>, b: seq<Entry>, k: string)
    requires Absent(b, k)
    ensures DeleteKey(a + b, k) == DeleteKey(a, k) + b
  {
    if a == [] {
      assert a + b == b;
      if b != [] {
        assert b[0].key != k;
        DeleteKeyAbsent(b[1..], k);
        assert b == [b[0]] + b[1..];
      }
    } else {
      assert (a + b)[0] == a[0];
      assert (a + b)[1..] == a[1..] + b;
      if a[0].key != k {
        DeleteKeyFromLeft(a[1..], b, k);
      }
    }
  }

  /** Deleting a key that `a` lacks leaves `a` untouched. */
  lemma {:induction false} DeleteKeyFromRight(a: seq<Entry>, b: seq<Entry>, k: string)
    requires Absent(a, k)
    ensures DeleteKey(a + b, k) == a + DeleteKey(b, k)
  {
    if a == [] {
      assert a + b == b;
    } else {
      assert (a + b)[0] == a[0];
      assert (a + b)[1..] == a[1..] + b;
      assert Absent(a[1..], k);
      DeleteKeyFromRight(a[1..], b, k);
    }
  }

  /** Deleting an absent key changes nothing. */
  lemma {:induction false} DeleteKeyAbsent(s: seq<Entry>, k: string)
    requires Absent(s, k)
    ensures DeleteKey(s, k) == s
  {
    if s != [] {
      assert Absent(s[1..], k);
      DeleteKeyAbsent(s[1..], k);
      assert s == [s[0]] + s[1..];
    }
  }

  /** On a sorted sequence `DeleteKey` removes the entry with key `k`, if there
      is one, and nothing else: the result is sorted and holds exactly the old
      entries whose key is not `k`. */
  lemma {:induction false} DeleteKeySpec(s: seq<Entry>, k: string)
    requires Sorted(s)
    ensures Sorted(DeleteKey(s, k))
    ensures forall x :: x in DeleteKey(s, k) <==> x in s && x.key != k
  {
    if s != [] {
      if s[0].key == k {
        LessIrreflexive(k);
        forall j | 0 <= j < |s[1..]| ensures s[1..][j].key != k {
          assert Less(s[0].key, s[j + 1].key);
        }
        assert s == [s[0]] + s[1..];
      } else {
        assert Sorted(s[1..]);
        DeleteKeySpec(s[1..], k);
        var tail := DeleteKey(s[1..], k);
        var r := [s[0]] + tail;
        forall i, j | 0 <= i < j < |r| ensures Less(r[i].key, r[j].key) {
          if i > 0 {
            assert r[i] == tail[i - 1] && r[j] == tail[j - 1];
          } else {
            assert r[j] == tail[j - 1] && r[j] in s[1..];
            var m :| 0 <= m < |s[1..]| && s[1..][m] == r[j];
            assert s[m + 1] == r[j];
          }
        }
        assert s == [s[0]] + s[1..];
      }
    }
  }
}
