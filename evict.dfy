/**
 * The bookkeeping behind DropExceptLast's backward cursor walk: which keys
 * the walk has removed so far, which bucket names it has set aside, and why
 * the two passes together leave exactly the greatest entries.
 */
module Evict {
  import opened Bytes
  import opened Errors
  import opened Store
  import opened Engine

  /** The keys of the leaf entries at indices lo up to hi - 1. */
  ghost function LeafKeysIn(es: Bucket, lo: int, hi: int): set<Bytes>
  {
    set j | lo <= j < hi && 0 <= j < |es| && es[j].item.Leaf? :: es[j].key
  }

  /** The names of the nested buckets at indices i up to cut - 1, highest index first. */
  function NestedKeysDown(es: Bucket, i: nat, cut: nat): seq<Bytes>
    requires cut <= |es|
    decreases cut - i
  {
    if i >= cut then []
    else NestedKeysDown(es, i + 1, cut) + (if es[i].item.Nested? then [es[i].key] else [])
  }

  ghost function Elements(s: seq<Bytes>): set<Bytes>
  {
    set x | x in s
  }

  /** Every name set aside is the key of a nested entry below the cut. */
  lemma {:induction false} NestedKeysDownMember(es: Bucket, i: nat, cut: nat, x: Bytes)
    requires cut <= |es|
    ensures x in NestedKeysDown(es, i, cut) <==> exists j :: i <= j < cut && es[j].item.Nested? && es[j].key == x
    decreases cut - i
  {
    if i < cut {
      NestedKeysDownMember(es, i + 1, cut, x);
      if x in NestedKeysDown(es, i, cut) && x !in NestedKeysDown(es, i + 1, cut) {
        assert es[i].item.Nested? && es[i].key == x;
      }
      if exists j :: i <= j < cut && es[j].item.Nested? && es[j].key == x {
        var j :| i <= j < cut && es[j].item.Nested? && es[j].key == x;
        if j == i {
          assert x in NestedKeysDown(es, i, cut);
        }
      }
    }
  }

  /** In a sorted bucket only index j holds the key es[j].key. */
  lemma KeyOnlyAt(es: Bucket, j: int, m: int)
    requires Sorted(es) && 0 <= j < |es| && 0 <= m < |es| && m != j
    ensures es[m].key != es[j].key
  {
    if m < j {
      LessIrreflexive(es[m].key);
    } else {
      LessIrreflexive(es[j].key);
    }
  }

  /**
   * Deleting the leaf at index j, below every key removed so far, removes
   * one more key from the bucket as first read.
   */
  lemma DropLeafStep(es: Bucket, j: int, cut: int)
    requires Sorted(es) && 0 <= j < cut <= |es| && es[j].item.Leaf?
    ensures Store.Delete(Without(es, LeafKeysIn(es, j + 1, cut)), es[j].key)
         == Ok(Without(es, LeafKeysIn(es, j, cut)))
  {
    var d := LeafKeysIn(es, j + 1, cut);
    var k := es[j].key;
    if k in d {
      var m :| j + 1 <= m < cut && 0 <= m < |es| && es[m].item.Leaf? && es[m].key == k;
      KeyOnlyAt(es, j, m);
    }
    FindWithout(es, d, k);
    FindAt(es, j);
    WithoutWithout(es, d, {k});
    LeafKeysInStep(es, j, cut);
  }

  /** A leaf at index j adds its key to the keys removed from j on. */
  lemma LeafKeysInStep(es: Bucket, j: int, cut: int)
    requires 0 <= j < cut <= |es| && es[j].item.Leaf?
    ensures LeafKeysIn(es, j, cut) == LeafKeysIn(es, j + 1, cut) + {es[j].key}
  {
    forall x | x in LeafKeysIn(es, j, cut)
      ensures x in LeafKeysIn(es, j + 1, cut) + {es[j].key}
    {
      var m :| j <= m < cut && 0 <= m < |es| && es[m].item.Leaf? && es[m].key == x;
      if m != j {
        assert x in LeafKeysIn(es, j + 1, cut);
      }
    }
  }

  /** A nested entry at index j leaves the removed keys as they were. */
  lemma SkipNestedStep(es: Bucket, j: int, cut: int)
    requires 0 <= j < cut <= |es| && es[j].item.Nested?
    ensures LeafKeysIn(es, j, cut) == LeafKeysIn(es, j + 1, cut)
  {
  }

  /** Entries at or above the cut are kept: nothing is removed for them. */
  lemma KeepStep(es: Bucket, j: int, cut: int)
    requires 0 <= cut <= j < |es|
    ensures LeafKeysIn(es, j, cut) == LeafKeysIn(es, j + 1, cut) == {}
    ensures NestedKeysDown(es, j, cut) == NestedKeysDown(es, j + 1, cut) == []
  {
  }

  /**
   * Deleting a set-aside bucket name: either it is still there and goes, or
   * it was already gone and nothing changes.
   */
  lemma DropBucketStep(es: Bucket, s: set<Bytes>, k: Bytes, cut: int)
    requires Sorted(es) && 0 <= cut <= |es|
    requires exists j :: 0 <= j < cut && es[j].item.Nested? && es[j].key == k
    ensures Store.DeleteBucket(Without(es, s), k) == Ok(Without(es, s + {k}))
         || (Store.DeleteBucket(Without(es, s), k).Err? && s + {k} == s)
  {
    var j :| 0 <= j < cut && es[j].item.Nested? && es[j].key == k;
    FindWithout(es, s, k);
    FindAt(es, j);
    WithoutWithout(es, s, {k});
    if k in s {
      assert s + {k} == s;
    }
  }

  /** The two passes together remove exactly the keys below the cut. */
  lemma AllBelowCut(es: Bucket, cut: nat)
    requires cut <= |es|
    ensures LeafKeysIn(es, 0, cut) + Elements(NestedKeysDown(es, 0, cut)) == KeySet(es[..cut])
  {
    forall x | x in KeySet(es[..cut])
      ensures x in LeafKeysIn(es, 0, cut) + Elements(NestedKeysDown(es, 0, cut))
    {
      var j :| 0 <= j < cut && es[..cut][j].key == x;
      NestedKeysDownMember(es, 0, cut, x);
      if es[j].item.Leaf? {
        assert x in LeafKeysIn(es, 0, cut);
      }
    }
    forall x | x in Elements(NestedKeysDown(es, 0, cut))
      ensures x in KeySet(es[..cut])
    {
      NestedKeysDownMember(es, 0, cut, x);
      var j :| 0 <= j < cut && es[j].item.Nested? && es[j].key == x;
      assert es[..cut][j].key == x;
    }
    forall x | x in LeafKeysIn(es, 0, cut)
      ensures x in KeySet(es[..cut])
    {
      var j :| 0 <= j < cut && 0 <= j < |es| && es[j].item.Leaf? && es[j].key == x;
      assert es[..cut][j].key == x;
    }
  }

  /** One leaf deletion of the walk, on the whole tree. */
  lemma DropLeafIn(root0: Bucket, p: Path, es: Bucket, j: int, cut: int)
    requires BucketAt(root0, p) == Some(es)
    requires Sorted(es) && 0 <= j < cut <= |es| && es[j].item.Leaf?
    ensures BucketAt(SetBucketAt(root0, p, Without(es, LeafKeysIn(es, j + 1, cut))), p).Some?
    ensures DeleteIn(SetBucketAt(root0, p, Without(es, LeafKeysIn(es, j + 1, cut))), true, p, es[j].key)
         == (SetBucketAt(root0, p, Without(es, LeafKeysIn(es, j, cut))), None)
  {
    var before := Without(es, LeafKeysIn(es, j + 1, cut));
    BucketAtSet(root0, p, before);
    DropLeafStep(es, j, cut);
    SetBucketAtTwice(root0, p, before, Without(es, LeafKeysIn(es, j, cut)));
  }

  /** One deletion of a set-aside bucket, on the whole tree. */
  lemma DropBucketIn(root0: Bucket, p: Path, es: Bucket, s: set<Bytes>, k: Bytes, cut: int)
    requires BucketAt(root0, p) == Some(es)
    requires Sorted(es) && 0 <= cut <= |es|
    requires exists j :: 0 <= j < cut && es[j].item.Nested? && es[j].key == k
    ensures BucketAt(SetBucketAt(root0, p, Without(es, s)), p).Some?
    ensures DeleteBucketIn(SetBucketAt(root0, p, Without(es, s)), true, p, k).0
         == SetBucketAt(root0, p, Without(es, s + {k}))
  {
    BucketAtSet(root0, p, Without(es, s));
    DropBucketStep(es, s, k, cut);
    SetBucketAtTwice(root0, p, Without(es, s), Without(es, s + {k}));
  }
}
