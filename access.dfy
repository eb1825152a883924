// The access decision of `File::chackAllow` and the guarded lookup of
// `File::allowFind`. An ApiException becomes a failure value carrying its
// message.

module Access {
  import opened Files

  datatype Outcome = Pass | Fail(message: string)

  datatype Result<T> = Ok(value: T) | Err(message: string)

  /** The message of every access denial. */
  const NoAccess: string := "没有访问权限"

  /** The default message of a failed lookup. */
  const NotFound: string := "文件不存在或已被删除"

  /** `$noExistTis ?: default`: PHP's `?:` falls back on null, on the empty
      string and on the string "0". */
  function NotFoundMessage(noExistTis: Option<string>): (m: string)
    ensures noExistTis.Some? && noExistTis.value != "" && noExistTis.value != "0" ==> m == noExistTis.value
    ensures noExistTis.None? || noExistTis.value == "" || noExistTis.value == "0" ==> m == NotFound
    ensures m != "" && m != "0"
  {
    match noExistTis
    case None => NotFound
    case Some(t) => if t == "" || t == "0" then NotFound else t
  }

  /** `membership` grants `userid` access through anchor `a`: the anchor is
      shared with everyone, or with listed members and `userid` is listed. */
  ghost predicate Grants(members: set<FileUser>, a: File, userid: int) {
    a.share == ShareAll || (a.share == ShareMembers && FileUser(a.id, userid) in members)
  }

  /** chackAllow: the owner passes; anyone else passes only through the
      share anchor getShareInfo returns. */
  function ChackAllow(files: map<int, File>, members: set<FileUser>, ghost rank: map<int, nat>, f: File, userid: int): (r: Outcome)
    requires Acyclic(files, rank)
    ensures userid == f.userid ==> r == Pass
    ensures r.Fail? ==> r.message == NoAccess
  {
    if userid == f.userid then Pass
    else match ShareInfo(files, rank, f)
      case None => Fail(NoAccess)
      case Some(row) =>
        if row.share == ShareAll then Pass
        else if row.share == ShareMembers && FileUser(row.id, userid) in members then Pass
        else Fail(NoAccess)
  }

  /** A non-owner is let in exactly when the share anchor of the file grants
      it: an anchor shared with everyone, or one shared with members that
      lists the user. */
  lemma AnchorDecides(files: map<int, File>, members: set<FileUser>, rank: map<int, nat>, f: File, a: File, userid: int)
    requires Acyclic(files, rank)
    requires userid != f.userid && AnchorOf(files, rank, f, a)
    ensures ChackAllow(files, members, rank, f, userid) == Pass <==> Grants(members, a, userid)
  {
    ShareInfoIsAnchor(files, rank, f, a);
  }

  /** A non-owner is denied a file that has no share anchor: neither the file
      nor any row on its ancestor walk is flagged. */
  lemma NoAnchorDenied(files: map<int, File>, members: set<FileUser>, rank: map<int, nat>, f: File, userid: int)
    requires Acyclic(files, rank)
    requires userid != f.userid && f.share <= 0
    requires var c := Chain(files, rank, f.pid); forall i :: 0 <= i < |c| ==> c[i].share <= 0
    ensures ChackAllow(files, members, rank, f, userid) == Fail(NoAccess)
  {
    ShareInfoNearest(files, rank, f);
  }

  /** A positive flag other than 1 and 2 still makes its row the anchor, so
      it shadows every flag above it, and it lets no non-owner in. */
  lemma UnknownFlagDenies(files: map<int, File>, members: set<FileUser>, rank: map<int, nat>, f: File, a: File, userid: int)
    requires Acyclic(files, rank)
    requires userid != f.userid && AnchorOf(files, rank, f, a)
    requires a.share != ShareAll && a.share != ShareMembers
    ensures ShareInfo(files, rank, f) == Some(a)
    ensures ChackAllow(files, members, rank, f, userid) == Fail(NoAccess)
  {
    ShareInfoIsAnchor(files, rank, f, a);
  }

  /** Whether a non-owner is let in is decided by the share anchor alone:
      two files with the same anchor get the same answer. */
  lemma SameAnchorSameDecision(files: map<int, File>, members: set<FileUser>, rank: map<int, nat>, f: File, g: File, a: File, userid: int)
    requires Acyclic(files, rank)
    requires userid != f.userid && userid != g.userid
    requires AnchorOf(files, rank, f, a) && AnchorOf(files, rank, g, a)
    ensures ChackAllow(files, members, rank, f, userid) == ChackAllow(files, members, rank, g, userid)
  {
    ShareInfoIsAnchor(files, rank, f, a);
    ShareInfoIsAnchor(files, rank, g, a);
  }

  /** allowFind: a missing or soft-deleted id fails with the caller's message
      or the default one; otherwise the row comes back exactly when
      chackAllow lets the current user in, and fails with its message when
      it does not. */
  function AllowFind(files: map<int, File>, members: set<FileUser>, ghost rank: map<int, nat>, id: int, userid: int, noExistTis: Option<string>): (r: Result<File>)
    requires Acyclic(files, rank)
    ensures !Live(files, id) ==> r == Err(NotFoundMessage(noExistTis))
    ensures Live(files, id) ==> (r == Ok(files[id]) <==> ChackAllow(files, members, rank, files[id], userid) == Pass)
    ensures Live(files, id) && r.Err? ==> r.message == NoAccess
    ensures r.Ok? ==> Live(files, id) && r.value == files[id]
  {
    match Find(files, id)
    case None => Err(NotFoundMessage(noExistTis))
    case Some(file) =>
      match ChackAllow(files, members, rank, file, userid)
      case Fail(m) => Err(m)
      case Pass => Ok(file)
  }

  // Two example trees: a share with everyone two levels up, and a share
  // with listed members one level up.

  const PublicTree: map<int, File> := map[
    1 := File(1, 0, 10, ShareAll, false),
    2 := File(2, 1, 10, 0, false),
    3 := File(3, 2, 10, 0, false)]

  const PublicRank: map<int, nat> := map[1 := 0, 2 := 1, 3 := 2]

  lemma PublicGrandparentGrantsAll(userid: int)
    ensures Acyclic(PublicTree, PublicRank)
    ensures AllowFind(PublicTree, {}, PublicRank, 3, userid, None) == Ok(PublicTree[3])
  {
    assert Chain(PublicTree, PublicRank, 1) == [PublicTree[1]];
    assert Chain(PublicTree, PublicRank, 2) == [PublicTree[2], PublicTree[1]];
    assert AnchorOf(PublicTree, PublicRank, PublicTree[3], PublicTree[1]) by {
      assert Nearest(Chain(PublicTree, PublicRank, 2), 1);
    }
    if userid != 10 {
      AnchorDecides(PublicTree, {}, PublicRank, PublicTree[3], PublicTree[1], userid);
    }
  }

  const MembersTree: map<int, File> := map[
    1 := File(1, 0, 10, ShareMembers, false),
    2 := File(2, 1, 10, 0, false)]

  const MembersRank: map<int, nat> := map[1 := 0, 2 := 1]

  lemma RestrictedParentGrantsMembers()
    ensures Acyclic(MembersTree, MembersRank)
    ensures AllowFind(MembersTree, {FileUser(1, 20)}, MembersRank, 2, 20, None) == Ok(MembersTree[2])
    ensures AllowFind(MembersTree, {FileUser(1, 20)}, MembersRank, 2, 30, None) == Err(NoAccess)
  {
    assert Chain(MembersTree, MembersRank, 1) == [MembersTree[1]];
  }
}
