// The rows of the `files` table and the upward walk along `pid` that
// resolves which folder's share flag is in effect for a file.

module Files {

  datatype Option<T> = None | Some(value: T)

  /** One row of the `files` table. `pid`, `userid` and `share` are nullable
      integers in the table; a null reads as 0, which is how the loose `==`
      and the `> 0` tests of the model class treat it. `deleted` is set when
      the row's `deleted_at` is (soft deletion). */
  datatype File = File(id: int, pid: int, userid: int, share: int, deleted: bool)

  /** A `file_contents` row, of which only the owning file id matters here. */
  datatype FileContent = FileContent(id: int, fid: int)

  /** A `file_users` row: `userid` is a listed member of the share on `fileId`. */
  datatype FileUser = FileUser(fileId: int, userid: int)

  /** Share flag values: 1 shares with everyone, 2 with listed members. */
  const ShareAll: int := 1
  const ShareMembers: int := 2

  /** Every row is stored under its own, positive (auto-increment) id. */
  ghost predicate WellFormed(files: map<int, File>) {
    forall k :: k in files ==> k > 0 && files[k].id == k
  }

  /** The parent relation is acyclic, witnessed by a depth `rank`: wherever
      a row's parent is present in the table, the parent has the smaller rank. */
  ghost predicate Acyclic(files: map<int, File>, rank: map<int, nat>) {
    forall k :: k in files ==> k in rank && (files[k].pid in files ==> files[k].pid in rank && rank[files[k].pid] < rank[k])
  }

  /** The table invariant the model class keeps: well-formed rows, an
      acyclic parent relation, and depths below the number of rows (which
      bounds the downward recursion). */
  ghost predicate StoreInvariant(files: map<int, File>, rank: map<int, nat>) {
    WellFormed(files) && Acyclic(files, rank) &&
    forall k :: k in files ==> k in rank && rank[k] < |files|
  }

  ghost predicate Live(files: map<int, File>, id: int) {
    id in files && !files[id].deleted
  }

  /** `whereId($id)->first()` and `find($id)`: soft-deleted rows are not found. */
  function Find(files: map<int, File>, id: int): (r: Option<File>)
    ensures r.Some? <==> Live(files, id)
    ensures r.Some? ==> r.value == files[id]
    ensures WellFormed(files) && r.Some? ==> r.value.id == id > 0
  {
    if id in files && !files[id].deleted then Some(files[id]) else None
  }

  /** The rows the `while ($pid > 0)` walk visits when it starts at `pid`:
      it stops at a pid that is not positive or at a row that is not found. */
  function Chain(files: map<int, File>, ghost rank: map<int, nat>, pid: int): seq<File>
    requires Acyclic(files, rank)
    decreases if pid in files then rank[pid] + 1 else 0
  {
    if pid <= 0 then []
    else match Find(files, pid)
      case None => []
      case Some(row) => [row] + Chain(files, rank, row.pid)
  }

  /** The loop of getShareInfo/isNnShare as a function: the first row on the
      walk from `pid` whose share flag is positive. */
  function AnchorAbove(files: map<int, File>, ghost rank: map<int, nat>, pid: int): Option<File>
    requires Acyclic(files, rank)
    decreases if pid in files then rank[pid] + 1 else 0
  {
    if pid <= 0 then None
    else match Find(files, pid)
      case None => None
      case Some(row) => if row.share > 0 then Some(row) else AnchorAbove(files, rank, row.pid)
  }

  /** getShareInfo: the file itself when its own flag is positive, else the
      nearest ancestor whose flag is. */
  function ShareInfo(files: map<int, File>, ghost rank: map<int, nat>, f: File): Option<File>
    requires Acyclic(files, rank)
  {
    if f.share > 0 then Some(f) else AnchorAbove(files, rank, f.pid)
  }

  /** isNnShare: some ancestor of `f` (not `f` itself) carries a positive flag. */
  ghost predicate InShare(files: map<int, File>, rank: map<int, nat>, f: File)
    requires Acyclic(files, rank)
  {
    var c := Chain(files, rank, f.pid);
    exists i :: 0 <= i < |c| && c[i].share > 0
  }

  /** No row of `c` carries a positive share flag. */
  ghost predicate NoneFlagged(c: seq<File>) {
    forall i :: 0 <= i < |c| ==> c[i].share <= 0
  }

  /** Two first flagged indexes of one sequence are the same. */
  lemma NearestUnique(c: seq<File>, i: int, j: int)
    requires Nearest(c, i) && Nearest(c, j)
    ensures i == j
  {
  }

  /** Index `i` of `c` is the first whose share flag is positive. */
  ghost predicate Nearest(c: seq<File>, i: int) {
    0 <= i < |c| && c[i].share > 0 && forall j :: 0 <= j < i ==> c[j].share <= 0
  }

  /** `a` is the share anchor of `f`: `f` itself when flagged, otherwise the
      nearest flagged row on its ancestor chain. */
  ghost predicate AnchorOf(files: map<int, File>, rank: map<int, nat>, f: File, a: File)
    requires Acyclic(files, rank)
  {
    (f.share > 0 && a == f) ||
    (f.share <= 0 && exists i :: Nearest(Chain(files, rank, f.pid), i) && Chain(files, rank, f.pid)[i] == a)
  }

  /** The walk visits exactly the live ancestors in order: it starts at
      `pid`, each next row is the parent of the one before, and it ends at a
      pid that is not positive or that no live row has. */
  lemma {:induction false} ChainIsAncestry(files: map<int, File>, rank: map<int, nat>, pid: int)
    requires WellFormed(files) && Acyclic(files, rank)
    ensures var c := Chain(files, rank, pid);
      && (forall i :: 0 <= i < |c| ==> c[i].id > 0 && Find(files, c[i].id) == Some(c[i]))
      && (|c| > 0 ==> c[0].id == pid)
      && (forall i :: 0 <= i < |c| - 1 ==> c[i + 1].id == c[i].pid)
      && (var last := if |c| == 0 then pid else c[|c| - 1].pid; last <= 0 || Find(files, last).None?)
    decreases if pid in files then rank[pid] + 1 else 0
  {
    if pid > 0 && Find(files, pid).Some? {
      var row := files[pid];
      ChainIsAncestry(files, rank, row.pid);
      var rest := Chain(files, rank, row.pid);
      assert Chain(files, rank, pid) == [row] + rest;
    }
  }

  /** The walk's answer is the nearest flagged row of the chain, and it finds
      none exactly when no row of the chain is flagged. */
  lemma {:induction false} AnchorAboveIsNearest(files: map<int, File>, rank: map<int, nat>, pid: int)
    requires Acyclic(files, rank)
    ensures AnchorAbove(files, rank, pid).None? <==> NoneFlagged(Chain(files, rank, pid))
    ensures forall i :: Nearest(Chain(files, rank, pid), i) ==> AnchorAbove(files, rank, pid) == Some(Chain(files, rank, pid)[i])
    decreases if pid in files then rank[pid] + 1 else 0
  {
    var c := Chain(files, rank, pid);
    if pid <= 0 || Find(files, pid).None? {
      assert c == [] && AnchorAbove(files, rank, pid).None?;
    } else {
      var row := files[pid];
      AnchorAboveIsNearest(files, rank, row.pid);
      var rest := Chain(files, rank, row.pid);
      assert c == [row] + rest;
      assert c[0] == row;
      if row.share > 0 {
        assert AnchorAbove(files, rank, pid) == Some(row);
        assert Nearest(c, 0);
        forall i | Nearest(c, i) ensures AnchorAbove(files, rank, pid) == Some(c[i]) {
          NearestUnique(c, 0, i);
        }
      } else {
        assert AnchorAbove(files, rank, pid) == AnchorAbove(files, rank, row.pid);
        if AnchorAbove(files, rank, row.pid).None? {
          forall i | 0 <= i < |c| ensures c[i].share <= 0 {
            if i > 0 { assert c[i] == rest[i - 1]; }
          }
          assert NoneFlagged(c);
        } else {
          var k :| 0 <= k < |rest| && rest[k].share > 0;
          assert c[k + 1] == rest[k];
        }
        forall i | Nearest(c, i)
          ensures AnchorAbove(files, rank, pid) == Some(c[i])
        {
          assert i > 0;
          assert Nearest(rest, i - 1) by {
            forall j | 0 <= j < i - 1 ensures rest[j].share <= 0 {
              assert rest[j] == c[j + 1];
            }
          }
        }
      }
    }
  }

  /** getShareInfo returns `f` when `f` is flagged; otherwise the nearest
      flagged ancestor, and nothing exactly when no ancestor on the walk is
      flagged. */
  lemma ShareInfoNearest(files: map<int, File>, rank: map<int, nat>, f: File)
    requires Acyclic(files, rank)
    ensures f.share > 0 ==> ShareInfo(files, rank, f) == Some(f)
    ensures var c := Chain(files, rank, f.pid);
      f.share <= 0 ==>
        && (ShareInfo(files, rank, f).None? <==> forall i :: 0 <= i < |c| ==> c[i].share <= 0)
        && (forall i :: Nearest(c, i) ==> ShareInfo(files, rank, f) == Some(c[i]))
  {
    AnchorAboveIsNearest(files, rank, f.pid);
  }

  /** The anchor of `f` is exactly what getShareInfo returns. */
  lemma ShareInfoIsAnchor(files: map<int, File>, rank: map<int, nat>, f: File, a: File)
    requires Acyclic(files, rank)
    ensures ShareInfo(files, rank, f) == Some(a) <==> AnchorOf(files, rank, f, a)
  {
    ShareInfoNearest(files, rank, f);
    var c := Chain(files, rank, f.pid);
    if f.share <= 0 {
      if ShareInfo(files, rank, f) == Some(a) {
        // some row of the chain is flagged, so a first one exists
        assert !(forall i :: 0 <= i < |c| ==> c[i].share <= 0);
        var k :| 0 <= k < |c| && c[k].share > 0;
        FirstFlaggedExists(c, k);
        var i :| Nearest(c, i) && i <= k;
        assert ShareInfo(files, rank, f) == Some(c[i]);
        assert AnchorOf(files, rank, f, a);
      }
      if AnchorOf(files, rank, f, a) {
        var i :| Nearest(c, i) && c[i] == a;
        AnchorAboveIsNearest(files, rank, f.pid);
        assert ShareInfo(files, rank, f) == Some(a);
      }
    }
  }

  /** Some index no later than `k` is the first flagged one. */
  lemma {:induction false} FirstFlaggedExists(c: seq<File>, k: int)
    requires 0 <= k < |c| && c[k].share > 0
    ensures exists i :: Nearest(c, i) && i <= k
    decreases k
  {
    if forall j :: 0 <= j < k ==> c[j].share <= 0 {
      assert Nearest(c, k);
    } else {
      var j :| 0 <= j < k && c[j].share > 0;
      FirstFlaggedExists(c, j);
    }
  }

  /** isNnShare holds exactly when the walk from the parent finds a flagged
      row, so it implies that getShareInfo finds an anchor; for an unflagged
      file the two agree. */
  lemma InShareIffAnchorAbove(files: map<int, File>, rank: map<int, nat>, f: File)
    requires Acyclic(files, rank)
    ensures InShare(files, rank, f) <==> AnchorAbove(files, rank, f.pid).Some?
    ensures InShare(files, rank, f) ==> ShareInfo(files, rank, f).Some?
    ensures f.share <= 0 ==> (InShare(files, rank, f) <==> ShareInfo(files, rank, f).Some?)
  {
    AnchorAboveIsNearest(files, rank, f.pid);
    var c := Chain(files, rank, f.pid);
    if AnchorAbove(files, rank, f.pid).Some? {
      assert !NoneFlagged(c);
      var k :| 0 <= k < |c| && c[k].share > 0;
      assert InShare(files, rank, f);
    } else {
      assert NoneFlagged(c);
      assert !InShare(files, rank, f);
    }
  }
}
