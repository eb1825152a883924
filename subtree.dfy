// The downward structure that setShare and deleteFile recurse over: the
// live children of a row (`wherePid($this->id)->get()`) and, transitively,
// its live descendants.

module Subtree {
  import opened Files

  /** `wherePid($id)->get()`: the ids of the live rows whose parent is `id`. */
  function ChildrenOf(files: map<int, File>, id: int): (r: set<int>)
    ensures forall k :: k in r <==> Live(files, k) && files[k].pid == id
  {
    set k | k in files && !files[k].deleted && files[k].pid == id
  }

  /** `k` is reached from `n` by the child recursion: `k` is live and its
      parent is `n` or is itself reached from `n`. */
  ghost predicate Descends(files: map<int, File>, rank: map<int, nat>, k: int, n: int)
    requires Acyclic(files, rank)
    decreases if k in files then rank[k] + 1 else 0
  {
    k in files && !files[k].deleted &&
    (files[k].pid == n || Descends(files, rank, files[k].pid, n))
  }

  /** The strict subtree of `n`: every row a recursion started at `n` visits
      besides `n` itself. */
  ghost function Below(files: map<int, File>, rank: map<int, nat>, n: int): set<int>
    requires Acyclic(files, rank)
  {
    set k | k in files && Descends(files, rank, k, n)
  }

  /** `k` is `c` or lies below it. */
  ghost predicate InSub(files: map<int, File>, rank: map<int, nat>, k: int, c: int)
    requires Acyclic(files, rank)
  {
    k == c || Descends(files, rank, k, c)
  }

  /** The union of the subtrees (roots included) of the rows in `cs`. */
  ghost function UnionSub(files: map<int, File>, rank: map<int, nat>, cs: set<int>): set<int>
    requires Acyclic(files, rank)
  {
    set k | k in files && exists c :: c in cs && InSub(files, rank, k, c)
  }

  /** Same rows, same parents, same deletion marks: the child recursion
      cannot tell the two tables apart. */
  ghost predicate SameShape(files: map<int, File>, other: map<int, File>) {
    files.Keys == other.Keys &&
    forall k :: k in files ==> files[k].pid == other[k].pid && files[k].deleted == other[k].deleted
  }

  /** A descendant is deeper than its ancestor, so no row descends from itself. */
  lemma {:induction false} DescendsDeeper(files: map<int, File>, rank: map<int, nat>, k: int, n: int)
    requires Acyclic(files, rank) && n in files
    requires Descends(files, rank, k, n)
    ensures rank[n] < rank[k]
    decreases rank[k]
  {
    var p := files[k].pid;
    if p != n {
      DescendsDeeper(files, rank, p, n);
    }
  }

  /** Reaching `c` from `n` and `k` from `c` reaches `k` from `n`. */
  lemma {:induction false} DescendsTransitive(files: map<int, File>, rank: map<int, nat>, k: int, c: int, n: int)
    requires Acyclic(files, rank)
    requires Descends(files, rank, k, c) && Descends(files, rank, c, n)
    ensures Descends(files, rank, k, n)
    decreases rank[k]
  {
    var p := files[k].pid;
    if p != c {
      DescendsTransitive(files, rank, p, c, n);
    }
  }

  /** Two rows that `k` descends from lie on one line. */
  lemma {:induction false} DescendsLinear(files: map<int, File>, rank: map<int, nat>, k: int, a: int, b: int)
    requires Acyclic(files, rank)
    requires Descends(files, rank, k, a) && Descends(files, rank, k, b)
    ensures a == b || Descends(files, rank, a, b) || Descends(files, rank, b, a)
    decreases rank[k]
  {
    var p := files[k].pid;
    if p != a && p != b {
      DescendsLinear(files, rank, p, a, b);
    }
  }

  /** Every listed child of a present row `n` lies in the subtree of `n`,
      deeper than `n`, and is neither `n` nor an ancestor of `n`. */
  lemma ChildrenAreBelow(files: map<int, File>, rank: map<int, nat>, n: int)
    requires Acyclic(files, rank) && n in files
    ensures forall c :: c in ChildrenOf(files, n) ==>
      c in Below(files, rank, n) && rank[n] < rank[c] && c != n && !Descends(files, rank, n, c)
  {
    forall c | c in ChildrenOf(files, n)
      ensures c in Below(files, rank, n) && rank[n] < rank[c] && c != n && !Descends(files, rank, n, c)
    {
      assert Descends(files, rank, c, n);
      DescendsDeeper(files, rank, c, n);
      ParentNotBelowChild(files, rank, n, c);
    }
  }

  /** The subtree of `n` splits into the subtrees of its live children. */
  lemma BelowSplits(files: map<int, File>, rank: map<int, nat>, n: int)
    requires Acyclic(files, rank)
    ensures Below(files, rank, n) == UnionSub(files, rank, ChildrenOf(files, n))
  {
    var cs := ChildrenOf(files, n);
    forall k | k in files
      ensures Descends(files, rank, k, n) <==> exists c :: c in cs && InSub(files, rank, k, c)
    {
      if Descends(files, rank, k, n) {
        var c := ChildOnPath(files, rank, k, n);
        assert c in cs && InSub(files, rank, k, c);
      }
      if exists c :: c in cs && InSub(files, rank, k, c) {
        var c :| c in cs && InSub(files, rank, k, c);
        assert Descends(files, rank, c, n);
        if k != c {
          DescendsTransitive(files, rank, k, c, n);
        }
      }
    }
  }

  /** The child of `n` through which `k` descends from `n`. */
  lemma {:induction false} ChildOnPathExists(files: map<int, File>, rank: map<int, nat>, k: int, n: int)
    requires Acyclic(files, rank)
    requires Descends(files, rank, k, n)
    ensures exists c :: c in ChildrenOf(files, n) && InSub(files, rank, k, c)
    decreases rank[k]
  {
    var p := files[k].pid;
    if p == n {
      assert k in ChildrenOf(files, n) && InSub(files, rank, k, k);
    } else {
      ChildOnPathExists(files, rank, p, n);
      var c :| c in ChildrenOf(files, n) && InSub(files, rank, p, c);
      assert Descends(files, rank, k, c);
    }
  }

  ghost function ChildOnPath(files: map<int, File>, rank: map<int, nat>, k: int, n: int): (c: int)
    requires Acyclic(files, rank)
    requires Descends(files, rank, k, n)
    ensures c in ChildrenOf(files, n) && InSub(files, rank, k, c)
  {
    ChildOnPathExists(files, rank, k, n);
    var c :| c in ChildrenOf(files, n) && InSub(files, rank, k, c); c
  }

  /** A row is never in the subtree of one of its children. */
  lemma ParentNotBelowChild(files: map<int, File>, rank: map<int, nat>, n: int, c: int)
    requires Acyclic(files, rank)
    requires c in ChildrenOf(files, n)
    ensures !InSub(files, rank, n, c)
  {
    if Descends(files, rank, n, c) {
      DescendsDeeper(files, rank, n, c);
    }
  }

  /** The subtrees of two different children of one row share no row. */
  lemma SiblingsDisjoint(files: map<int, File>, rank: map<int, nat>, n: int, c1: int, c2: int, k: int)
    requires Acyclic(files, rank)
    requires c1 in ChildrenOf(files, n) && c2 in ChildrenOf(files, n) && c1 != c2
    ensures !(InSub(files, rank, k, c1) && InSub(files, rank, k, c2))
  {
    if InSub(files, rank, k, c1) && InSub(files, rank, k, c2) {
      if k == c1 {
        NotBelowSibling(files, rank, n, c1, c2);
      } else if k == c2 {
        NotBelowSibling(files, rank, n, c2, c1);
      } else {
        DescendsLinear(files, rank, k, c1, c2);
        NotBelowSibling(files, rank, n, c1, c2);
        NotBelowSibling(files, rank, n, c2, c1);
      }
    }
  }

  /** A child of `n` is never below another child of `n`. */
  lemma NotBelowSibling(files: map<int, File>, rank: map<int, nat>, n: int, c1: int, c2: int)
    requires Acyclic(files, rank)
    requires c1 in ChildrenOf(files, n) && c2 in ChildrenOf(files, n) && c1 != c2
    ensures !Descends(files, rank, c1, c2)
  {
    if Descends(files, rank, c1, c2) {
      // c1's parent is n, so n would be c2 or below c2
      if n != c2 {
        assert Descends(files, rank, n, c2);
        DescendsDeeper(files, rank, n, c2);
      }
    }
  }

  /** The child recursion depends only on parents and deletion marks. */
  lemma {:induction false} DescendsSameShape(files: map<int, File>, other: map<int, File>, rank: map<int, nat>, k: int, n: int)
    requires Acyclic(files, rank) && Acyclic(other, rank) && SameShape(files, other)
    ensures Descends(files, rank, k, n) == Descends(other, rank, k, n)
    decreases if k in files then rank[k] + 1 else 0
  {
    if k in files && !files[k].deleted && files[k].pid != n {
      DescendsSameShape(files, other, rank, files[k].pid, n);
    }
  }

  lemma BelowSameShape(files: map<int, File>, other: map<int, File>, rank: map<int, nat>, n: int)
    requires Acyclic(files, rank) && Acyclic(other, rank) && SameShape(files, other)
    ensures Below(files, rank, n) == Below(other, rank, n)
    ensures ChildrenOf(files, n) == ChildrenOf(other, n)
  {
    forall k ensures Descends(files, rank, k, n) == Descends(other, rank, k, n) {
      DescendsSameShape(files, other, rank, k, n);
    }
    forall k ensures k in ChildrenOf(files, n) <==> k in ChildrenOf(other, n) {
    }
  }
}
