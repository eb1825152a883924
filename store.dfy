// The `files` table with its `file_contents` and `file_users` rows, and the
// methods of the File model that walk it or change it in place.

module Store {
  import opened Files
  import opened Subtree
  import opened Mutation

  /** A set is empty exactly when it has no member. */
  lemma HasMember(kids: set<int>)
    ensures kids == {} <==> forall c :: c !in kids
  {
    if forall c :: c !in kids {
      assert kids == {};
    }
  }

  /** Moving one child from the pending set to the finished one keeps the
      two a partition of the children, and shrinks the pending set. */
  lemma TakeOne(kids: set<int>, done: set<int>, c: int, all: set<int>)
    requires kids + done == all && kids !! done && c in kids
    ensures (kids - {c}) + (done + {c}) == all && (kids - {c}) !! (done + {c}) && kids - {c} < kids
  {
  }

  class FileStore {
    var files: map<int, File>
    var contents: set<FileContent>
    var members: set<FileUser>
    /** Depth witness of the acyclic parent relation. */
    ghost var rank: map<int, nat>

    ghost predicate Valid()
      reads this
    {
      StoreInvariant(files, rank)
    }

    constructor (files: map<int, File>, contents: set<FileContent>, members: set<FileUser>, ghost rank: map<int, nat>)
      requires StoreInvariant(files, rank)
      ensures Valid()
      ensures this.files == files && this.contents == contents && this.members == members && this.rank == rank
    {
      this.files := files;
      this.contents := contents;
      this.members := members;
      this.rank := rank;
    }

    /** getShareInfo. */
    method GetShareInfo(f: File) returns (r: Option<File>)
      requires Valid()
      ensures r == ShareInfo(files, rank, f)
    {
      if f.share > 0 {
        return Some(f);
      }
      var pid := f.pid;
      while pid > 0
        invariant AnchorAbove(files, rank, pid) == AnchorAbove(files, rank, f.pid)
        decreases if pid in files then rank[pid] + 1 else 0
      {
        var row := Find(files, pid);
        if row.None? {
          break;
        }
        if row.value.share > 0 {
          return row;
        }
        pid := row.value.pid;
      }
      return None;
    }

    /** isNnShare. */
    method IsNnShare(f: File) returns (r: bool)
      requires Valid()
      ensures r == InShare(files, rank, f)
    {
      var pid := f.pid;
      ghost var seen: seq<File> := [];
      while pid > 0
        invariant Chain(files, rank, f.pid) == seen + Chain(files, rank, pid)
        invariant forall j :: 0 <= j < |seen| ==> seen[j].share <= 0
        decreases if pid in files then rank[pid] + 1 else 0
      {
        var row := Find(files, pid);
        if row.None? {
          break;
        }
        if row.value.share > 0 {
          assert Chain(files, rank, f.pid)[|seen|] == row.value;
          return true;
        }
        seen := seen + [row.value];
        pid := row.value.pid;
      }
      assert Chain(files, rank, f.pid) == seen;
      return false;
    }

    /** setShare: write the flag on row `id`, then setShare(0) on each live
        child, so that no row below `id` keeps a flag of its own. */
    method SetShare(id: int, share: int) returns (ok: bool)
      requires Valid() && id in files
      modifies this
      ensures Valid() && ok && files.Keys == old(files).Keys
      ensures files == SharedTree(old(files), old(rank), id, share)
      ensures rank == old(rank) && contents == old(contents) && members == old(members)
      decreases |files| - rank[id]
    {
      ghost var start := files;
      SetShareStart(start, rank, id, share);
      files := files[id := files[id].(share := share)];
      ghost var shaped := files;
      var kids := ChildrenOf(files, id);
      ghost var done: set<int> := {};
      while kids != {}
        invariant Valid() && files.Keys == start.Keys
        invariant rank == old(rank) && contents == old(contents) && members == old(members)
        invariant kids + done == ChildrenOf(start, id) && kids !! done
        invariant files == ZeroShares(shaped, UnionSub(start, rank, done))
        decreases kids
      {
        HasMember(kids);
        var c :| c in kids;
        SetShareStep(start, rank, id, share, done, c, files);
        var childOk := SetShare(c, 0);
        TakeOne(kids, done, c, ChildrenOf(start, id));
        kids := kids - {c};
        done := done + {c};
      }
      SetShareFinish(start, rank, id, share, files);
      ok := true;
    }

    /** deleteFile: soft-delete row `id`, drop its content rows, then
        deleteFile on each live child. */
    method DeleteFile(id: int) returns (ok: bool)
      requires Valid() && id in files
      modifies this
      ensures Valid() && ok && files.Keys == old(files).Keys
      ensures files == DeletedTree(old(files), old(rank), id)
      ensures contents == PurgedContents(old(contents), old(files), old(rank), id)
      ensures rank == old(rank) && members == old(members)
      decreases |files| - rank[id]
    {
      ghost var start := files;
      ghost var before := contents;
      DeleteFileStart(start, before, rank, id);
      files := files[id := files[id].(deleted := true)];
      contents := set x | x in contents && x.fid != id;
      var kids := ChildrenOf(files, id);
      ghost var done: set<int> := {};
      while kids != {}
        invariant Valid() && files.Keys == start.Keys
        invariant rank == old(rank) && members == old(members)
        invariant kids + done == ChildrenOf(start, id) && kids !! done
        invariant files == MarkDeleted(start, {id} + UnionSub(start, rank, done))
        invariant contents == Purge(before, {id} + UnionSub(start, rank, done))
        decreases kids
      {
        HasMember(kids);
        var c :| c in kids;
        DeleteFileStep(start, before, rank, id, done, c, files, contents);
        var childOk := DeleteFile(c);
        TakeOne(kids, done, c, ChildrenOf(start, id));
        kids := kids - {c};
        done := done + {c};
      }
      DeleteFileFinish(start, before, rank, id, files, contents);
      ok := true;
    }
  }
}
