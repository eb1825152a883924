// What setShare and deleteFile leave behind, as functions of the table
// before the call, and the properties of those states.

module Mutation {
  import opened Files
  import opened Subtree

  /** The table with the share flag of every row in `s` cleared. */
  ghost function ZeroShares(files: map<int, File>, s: set<int>): map<int, File> {
    map k | k in files :: if k in s then files[k].(share := 0) else files[k]
  }

  /** The table with every row in `s` soft-deleted. */
  ghost function MarkDeleted(files: map<int, File>, s: set<int>): (r: map<int, File>)
    ensures r.Keys == files.Keys && forall k :: k in r ==> r[k].pid == files[k].pid
  {
    map k | k in files :: if k in s then files[k].(deleted := true) else files[k]
  }

  /** The content rows that belong to no file in `s`. */
  ghost function Purge(contents: set<FileContent>, s: set<int>): set<FileContent> {
    set x | x in contents && x.fid !in s
  }

  /** The table after setShare(share) on row `n`: `n` carries `share` and
      every row below it carries 0. */
  ghost function SharedTree(files: map<int, File>, rank: map<int, nat>, n: int, share: int): map<int, File>
    requires Acyclic(files, rank) && n in files
  {
    ZeroShares(files[n := files[n].(share := share)], Below(files, rank, n))
  }

  /** The table after deleteFile on row `n`: `n` and every row below it are
      soft-deleted. */
  ghost function DeletedTree(files: map<int, File>, rank: map<int, nat>, n: int): map<int, File>
    requires Acyclic(files, rank)
  {
    MarkDeleted(files, {n} + Below(files, rank, n))
  }

  /** The content rows after deleteFile on row `n`. */
  ghost function PurgedContents(contents: set<FileContent>, files: map<int, File>, rank: map<int, nat>, n: int): set<FileContent>
    requires Acyclic(files, rank)
  {
    Purge(contents, {n} + Below(files, rank, n))
  }

  /** Changing share flags keeps the table's shape and its invariants. */
  lemma ZeroSharesShape(files: map<int, File>, rank: map<int, nat>, s: set<int>)
    requires Acyclic(files, rank)
    ensures SameShape(files, ZeroShares(files, s)) && Acyclic(ZeroShares(files, s), rank)
    ensures WellFormed(files) ==> WellFormed(ZeroShares(files, s))
  {
  }

  /** Soft deletion keeps every row, parent and id, so the invariants survive. */
  lemma MarkDeletedKeeps(files: map<int, File>, rank: map<int, nat>, s: set<int>)
    requires Acyclic(files, rank)
    ensures MarkDeleted(files, s).Keys == files.Keys && Acyclic(MarkDeleted(files, s), rank)
    ensures WellFormed(files) ==> WellFormed(MarkDeleted(files, s))
  {
  }

  /** The effect of setShare on row `n`: `n` carries the new flag, every
      live descendant carries 0, and every other row and every field besides
      the flag is as before. */
  lemma SetShareEffect(files: map<int, File>, rank: map<int, nat>, n: int, share: int)
    requires Acyclic(files, rank) && n in files
    ensures var after := SharedTree(files, rank, n, share);
      && after.Keys == files.Keys
      && after[n] == files[n].(share := share)
      && (forall k :: k in files && Descends(files, rank, k, n) ==> after[k] == files[k].(share := 0))
      && (forall k :: k in files && k != n && !Descends(files, rank, k, n) ==> after[k] == files[k])
      && SameShape(files, after)
  {
    if Descends(files, rank, n, n) {
      DescendsDeeper(files, rank, n, n);
    }
  }

  /** setShare twice with the same flag leaves what setShare once does. */
  lemma SetShareIdempotent(files: map<int, File>, rank: map<int, nat>, n: int, share: int)
    requires Acyclic(files, rank) && n in files
    ensures var once := SharedTree(files, rank, n, share);
      SharedTree(once, rank, n, share) == once
  {
    var shaped := files[n := files[n].(share := share)];
    ZeroSharesShape(shaped, rank, Below(files, rank, n));
    var once := SharedTree(files, rank, n, share);
    BelowSameShape(files, once, rank, n);
    SetShareEffect(files, rank, n, share);
    SetShareEffect(once, rank, n, share);
  }

  /** After setShare with a positive flag on a live row `n`, every row below
      `n` resolves its share anchor to `n`. */
  lemma SetShareAnchorsBelow(files: map<int, File>, rank: map<int, nat>, n: int, share: int, d: int)
    requires WellFormed(files) && Acyclic(files, rank) && Live(files, n)
    requires share > 0 && Descends(files, rank, d, n)
    ensures var after := SharedTree(files, rank, n, share);
      ShareInfo(after, rank, after[d]) == Some(after[n])
  {
    var shaped := files[n := files[n].(share := share)];
    ZeroSharesShape(shaped, rank, Below(files, rank, n));
    var after := SharedTree(files, rank, n, share);
    SetShareEffect(files, rank, n, share);
    forall k | k in after && Descends(after, rank, k, n)
      ensures after[k].share == 0
    {
      DescendsSameShape(files, after, rank, k, n);
    }
    DescendsSameShape(files, after, rank, d, n);
    ResolvesTo(after, rank, n, d);
  }

  /** In a table where `n` is live and flagged and every row below it is
      unflagged, every row below `n` resolves to `n`. */
  lemma {:induction false} ResolvesTo(files: map<int, File>, rank: map<int, nat>, n: int, d: int)
    requires WellFormed(files) && Acyclic(files, rank) && Live(files, n) && files[n].share > 0
    requires forall k :: k in files && Descends(files, rank, k, n) ==> files[k].share == 0
    requires Descends(files, rank, d, n)
    ensures ShareInfo(files, rank, files[d]) == Some(files[n])
    decreases rank[d]
  {
    var p := files[d].pid;
    if p != n {
      ResolvesTo(files, rank, n, p);
    }
  }

  /** The effect of deleteFile on row `n`: `n` and every live descendant are
      soft-deleted, the content rows of exactly those files are gone, and
      nothing else changes. */
  lemma DeleteFileEffect(files: map<int, File>, contents: set<FileContent>, rank: map<int, nat>, n: int)
    requires Acyclic(files, rank)
    ensures var after := DeletedTree(files, rank, n);
      var left := PurgedContents(contents, files, rank, n);
      && after.Keys == files.Keys
      && (n in files ==> after[n] == files[n].(deleted := true))
      && (forall k :: k in files && Descends(files, rank, k, n) ==> after[k] == files[k].(deleted := true))
      && (forall k :: k in files && k != n && !Descends(files, rank, k, n) ==> after[k] == files[k])
      && (forall k :: (k == n || Descends(files, rank, k, n)) ==> Find(after, k).None?)
      && (forall x :: x in left <==> x in contents && x.fid != n && !Descends(files, rank, x.fid, n))
  {
  }

  /** Soft deletion only removes rows from the child recursion. */
  lemma {:induction false} DescendsAfterDelete(files: map<int, File>, rank: map<int, nat>, s: set<int>, k: int, c: int)
    requires Acyclic(files, rank)
    ensures MarkDeleted(files, s).Keys == files.Keys && Acyclic(MarkDeleted(files, s), rank)
    ensures Descends(MarkDeleted(files, s), rank, k, c) ==> Descends(files, rank, k, c)
    ensures (forall x :: x in s ==> !Descends(files, rank, x, c)) ==>
      Descends(MarkDeleted(files, s), rank, k, c) == Descends(files, rank, k, c)
    decreases if k in files then rank[k] + 1 else 0
  {
    MarkDeletedKeeps(files, rank, s);
    if k in files && files[k].pid != c {
      DescendsAfterDelete(files, rank, s, files[k].pid, c);
    }
  }

  /** Deleting the subtree of `n` a second time changes nothing: neither
      the table nor the content rows. */
  lemma DeleteFileIdempotent(files: map<int, File>, contents: set<FileContent>, rank: map<int, nat>, n: int)
    requires Acyclic(files, rank)
    ensures var once := DeletedTree(files, rank, n);
      DeletedTree(once, rank, n) == once
    ensures var once := DeletedTree(files, rank, n);
      var left := PurgedContents(contents, files, rank, n);
      PurgedContents(left, once, rank, n) == left
  {
    var s := {n} + Below(files, rank, n);
    MarkDeletedKeeps(files, rank, s);
    var once := MarkDeleted(files, s);
    forall k | Descends(once, rank, k, n)
      ensures false
    {
      DescendsAfterDelete(files, rank, s, k, n);
    }
    assert Below(once, rank, n) == {};
  }

  /** One pass of setShare's loop over the children of `n`: once child `c`
      has had its own setShare(0), the rows cleared so far grow by the
      subtree of `c`. */
  lemma SetShareStep(files: map<int, File>, rank: map<int, nat>, n: int, share: int, done: set<int>, c: int, before: map<int, File>)
    requires Acyclic(files, rank) && n in files
    requires c in ChildrenOf(files, n)
    requires before == ZeroShares(files[n := files[n].(share := share)], UnionSub(files, rank, done))
    ensures Acyclic(before, rank) && c in before
    ensures SharedTree(before, rank, c, 0) == ZeroShares(files[n := files[n].(share := share)], UnionSub(files, rank, done + {c}))
  {
    var shaped := files[n := files[n].(share := share)];
    ZeroSharesShape(shaped, rank, UnionSub(files, rank, done));
    assert SameShape(files, before);
    BelowSameShape(files, before, rank, c);
    assert UnionSub(files, rank, done + {c}) == UnionSub(files, rank, done) + {c} + Below(files, rank, c);
  }

  /** One pass of deleteFile's loop over the children of `n`: the child `c`
      still has its whole subtree, because `n` and the subtrees of the
      children done so far lie outside it; deleting it grows the deleted
      rows and the purged contents by that subtree. */
  lemma DeleteFileStep(files: map<int, File>, contents: set<FileContent>, rank: map<int, nat>, n: int, done: set<int>, c: int, before: map<int, File>, left: set<FileContent>)
    requires Acyclic(files, rank)
    requires c in ChildrenOf(files, n) && c !in done && done <= ChildrenOf(files, n)
    requires before == MarkDeleted(files, {n} + UnionSub(files, rank, done))
    requires left == Purge(contents, {n} + UnionSub(files, rank, done))
    ensures Acyclic(before, rank) && c in before
    ensures Below(before, rank, c) == Below(files, rank, c)
    ensures DeletedTree(before, rank, c) == MarkDeleted(files, {n} + UnionSub(files, rank, done + {c}))
    ensures PurgedContents(left, before, rank, c) == Purge(contents, {n} + UnionSub(files, rank, done + {c}))
  {
    var s := {n} + UnionSub(files, rank, done);
    MarkDeletedKeeps(files, rank, s);
    forall x | x in s
      ensures !Descends(files, rank, x, c)
    {
      if x == n {
        ParentNotBelowChild(files, rank, n, c);
      } else {
        var c' :| c' in done && InSub(files, rank, x, c');
        SiblingsDisjoint(files, rank, n, c', c, x);
      }
    }
    forall k
      ensures Descends(before, rank, k, c) == Descends(files, rank, k, c)
    {
      DescendsAfterDelete(files, rank, s, k, c);
    }
    assert UnionSub(files, rank, done + {c}) == UnionSub(files, rank, done) + {c} + Below(files, rank, c);
  }

  /** The state setShare's loop starts from: the flag of `n` written, the
      children unchanged, nothing below `n` cleared yet. */
  lemma SetShareStart(files: map<int, File>, rank: map<int, nat>, n: int, share: int)
    requires StoreInvariant(files, rank) && n in files
    ensures var shaped := files[n := files[n].(share := share)];
      && StoreInvariant(shaped, rank) && shaped.Keys == files.Keys
      && ChildrenOf(shaped, n) == ChildrenOf(files, n)
      && shaped == ZeroShares(shaped, UnionSub(files, rank, {}))
  {
    var shaped := files[n := files[n].(share := share)];
    assert SameShape(files, shaped);
    BelowSameShape(files, shaped, rank, n);
    assert UnionSub(files, rank, {}) == {};
  }

  /** setShare's loop ends with every child done, which is the whole subtree. */
  lemma SetShareFinish(files: map<int, File>, rank: map<int, nat>, n: int, share: int, after: map<int, File>)
    requires Acyclic(files, rank) && n in files
    requires after == ZeroShares(files[n := files[n].(share := share)], UnionSub(files, rank, ChildrenOf(files, n)))
    ensures after == SharedTree(files, rank, n, share)
  {
    BelowSplits(files, rank, n);
  }

  /** The state deleteFile's loop starts from: `n` soft-deleted, its content
      rows gone, its children unchanged. */
  lemma DeleteFileStart(files: map<int, File>, contents: set<FileContent>, rank: map<int, nat>, n: int)
    requires StoreInvariant(files, rank) && n in files
    ensures var gone := files[n := files[n].(deleted := true)];
      && StoreInvariant(gone, rank) && gone.Keys == files.Keys
      && ChildrenOf(gone, n) == ChildrenOf(files, n)
      && gone == MarkDeleted(files, {n} + UnionSub(files, rank, {}))
      && (set x | x in contents && x.fid != n) == Purge(contents, {n} + UnionSub(files, rank, {}))
  {
    assert UnionSub(files, rank, {}) == {};
    var gone := files[n := files[n].(deleted := true)];
    assert files[n].pid != n;
    forall k ensures k in ChildrenOf(gone, n) <==> k in ChildrenOf(files, n) { }
  }

  /** deleteFile's loop ends with every child done, which is the whole subtree. */
  lemma DeleteFileFinish(files: map<int, File>, contents: set<FileContent>, rank: map<int, nat>, n: int, after: map<int, File>, left: set<FileContent>)
    requires Acyclic(files, rank)
    requires after == MarkDeleted(files, {n} + UnionSub(files, rank, ChildrenOf(files, n)))
    requires left == Purge(contents, {n} + UnionSub(files, rank, ChildrenOf(files, n)))
    ensures after == DeletedTree(files, rank, n) && left == PurgedContents(contents, files, rank, n)
  {
    BelowSplits(files, rank, n);
  }
}
