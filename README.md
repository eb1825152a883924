# File model: share resolution, access checks and cascading mutation

This project models the `File` model class of a document service. Files and
folders form a tree through their `pid` column. A row whose `share` flag is
positive is a *share anchor*: flag 1 shares it with everyone, flag 2 shares
it with the users listed for it in `file_users`. The anchor of a file is the
file itself when it is flagged, and otherwise the first flagged row met on
the walk up its `pid` chain.

The model covers six operations:

- `getShareInfo` finds the anchor.
- `isNnShare` asks whether some strict ancestor is flagged.
- `chackAllow` lets the owner in, and anyone else only through the anchor.
- `allowFind` looks a file up and then checks access.
- `setShare` writes a flag and clears the flag of every live descendant.
- `deleteFile` soft-deletes a subtree and removes its content rows.

The modules follow these pieces:

- `Files`: the rows and the upward walk. `Chain` lists the rows the walk
  visits, `AnchorAbove` is the walk itself, `ShareInfo` is getShareInfo as a
  function, and `InShare` is isNnShare as a predicate.
- `Subtree`: the live children of a row (`wherePid(id)->get()`) and the
  descendants the downward recursion reaches.
- `Mutation`: the table states that setShare and deleteFile produce, with
  their lemmas.
- `Access`: chackAllow and allowFind, where an `ApiException` becomes a
  failure value that carries its message.
- `Store`: the class `FileStore`. It holds the `files`, `file_contents` and
  `file_users` tables as fields. Its methods are the two walking loops and
  the two recursive mutations, each proved against the functions above.

The table is a `map<int, File>` keyed by id. A soft-deleted row stays in the
map with `deleted` set, and every lookup skips it, as Eloquent's soft
deletes do. The parent relation is assumed acyclic. The upward walks and
setShare's recursion rely on this to end. A ghost depth map `rank` witnesses it: a parent
present in the table always has the smaller rank.

## Model

| member | source | states |
|---|---|---|
| Files.ChainIsAncestry | app/Models/File.php:85-95 | The walk visits live rows with positive ids. It starts at `pid`, and each next row is the parent of the one before. It ends at a non-positive pid or at a pid no live row has. |
| Files.AnchorAboveIsNearest | app/Models/File.php:86-96 | The walk returns the first flagged row of the chain, skipping only rows whose share is 0 or less. It returns null exactly when no row of the chain is flagged. |
| Files.ShareInfoNearest | app/Models/File.php:80-97 | getShareInfo returns the file itself when its flag is positive. Otherwise it returns the nearest flagged ancestor, and null exactly when no ancestor on the walk is flagged. |
| Files.ShareInfoIsAnchor | app/Models/File.php:80-97 | getShareInfo returns `a` if and only if `a` is the file's share anchor (the file when flagged, else the nearest flagged ancestor). |
| Files.InShareIffAnchorAbove | app/Models/File.php:103-117 | isNnShare holds iff the walk from the parent finds a flagged row. So isNnShare implies getShareInfo is not null, and for an unflagged file the two agree. |
| Store.FileStore.GetShareInfo | app/Models/File.php:80-97 | The loop returns exactly the anchor that ShareInfo defines, and null when the walk ends without one. |
| Store.FileStore.IsNnShare | app/Models/File.php:103-117 | The loop returns true exactly when some row on the strict ancestor walk has a positive flag. |
| Access.ChackAllow | app/Models/File.php:55-74 | The owner always passes. Every denial carries the message "没有访问权限". |
| Access.AnchorDecides | app/Models/File.php:61-73 | A non-owner passes iff the file's anchor is shared with everyone (1), or is shared with members (2) and lists the user. |
| Access.NoAnchorDenied | app/Models/File.php:61-73 | A non-owner is denied when neither the file nor any row on its ancestor walk is flagged. |
| Access.UnknownFlagDenies | app/Models/File.php:61-73 | An anchor flagged with a positive value other than 1 or 2 is still the anchor, so it hides any flag above it, and it denies every non-owner. |
| Access.SameAnchorSameDecision | app/Models/File.php:61-73 | For non-owners the decision depends only on the anchor: two files with the same anchor get the same answer. |
| Access.NotFoundMessage | app/Models/File.php:168 | The exception message is never a PHP-falsy string ("" or "0"). It is the caller's text when that is truthy, and otherwise the default "文件不存在或已被删除". |
| Access.AllowFind | app/Models/File.php:164-172 | A missing or soft-deleted id fails with the not-found message. For a live id, the row comes back iff chackAllow passes, and otherwise the call fails with the access message. |
| Access.PublicGrandparentGrantsAll | app/Models/File.php:55-97 | In a three-level tree whose root is shared with everyone, any user gets the grandchild. |
| Access.RestrictedParentGrantsMembers | app/Models/File.php:55-97 | Under a parent shared with members, a listed user gets the child and an unlisted user is denied. |
| Subtree.ChildrenAreBelow | app/Models/File.php:129-133 | Every child that `wherePid` lists lies in the row's subtree and is deeper than the row. It is neither the row itself nor one of the row's ancestors, so the recursion into it moves strictly down. |
| Subtree.BelowSplits | app/Models/File.php:129-133 | The rows the recursion reaches below `n` are exactly the union of the subtrees of `n`'s live children. |
| Subtree.SiblingsDisjoint | app/Models/File.php:131-133 | The subtrees of two different children of one row share no row, so the recursive calls for siblings touch disjoint rows. |
| Store.FileStore.SetShare | app/Models/File.php:124-137 | The new table is `SharedTree`: the row carries the new flag and every live descendant carries 0. The result is true, the invariant is kept, and contents and members are unchanged. |
| Mutation.SetShareEffect | app/Models/File.php:126-134 | After setShare, the row has the requested flag and every live descendant has flag 0. Every other row, and every field other than the flag, is unchanged. |
| Mutation.SetShareIdempotent | app/Models/File.php:124-137 | Running setShare a second time with the same flag leaves the table as one run does. |
| Mutation.SetShareAnchorsBelow | app/Models/File.php:124-137 | After setShare with a positive flag on a live row, every row below it resolves its anchor to that row. |
| Store.FileStore.DeleteFile | app/Models/File.php:143-156 | The new table is `DeletedTree`: the row and its live descendants are soft-deleted. The new contents are `PurgedContents`: the content rows of those files are dropped. The result is true, and members are unchanged. |
| Mutation.DeleteFileEffect | app/Models/File.php:145-155 | deleteFile soft-deletes the row and every live descendant, so none of them is found afterwards. It removes exactly their content rows and changes nothing else. |
| Mutation.DeleteFileIdempotent | app/Models/File.php:143-156 | Deleting the same subtree a second time changes nothing: the `files` table and the content rows both stay as the first deletion left them. |

## Left out

- The transaction wrapper (`AbstractModel::transaction`) and its rollback are not modelled. Each setShare or deleteFile is one atomic step that succeeds, because the model has no database failures.
- `User::userid()` reads the session. The current user id is a parameter of `AllowFind` instead.
- Eloquent's query builder, the `save()` and `delete()` calls, and the `FileContent`/`FileUser` models are not modelled. The tables are a map and two sets, a content row is reduced to its owning file id, and a member row to (file id, user id).
- The nullable integer columns `pid`, `userid` and `share` read null as 0. PHP's loose `==` and `> 0` treat null that way.
- The `share` flag stays an integer, as in the code. Its docblock (app/Models/File.php:19) names only the values 1 and 2. The code tests `> 0`, `== 1` and `== 2`, so any other positive value still acts as an anchor but grants nobody.
- The order in which the foreach visits siblings is left unspecified: the loop takes any remaining child. The sibling subtrees are disjoint, so the final state does not depend on the order.
- Store.FileStore.SetShare requires the row to be present and the parent relation to be acyclic (the class invariant). The source does not check this. On a cycle of live rows, its recursion and the walks of getShareInfo and isNnShare would run forever.
- Store.FileStore.DeleteFile requires acyclicity through `Valid()` even though the source does not need it. The source soft-deletes each row before it lists that row's children, so on a cycle it still visits each row once and stops. The model does not cover deleteFile on a cyclic table.
- The columns listed only in the class docblock (`cid`, `name`, `type`, `size`, `created_id` and the timestamps) play no part in the modelled methods and are not modelled. `deleted_at` is reduced to the `deleted` flag.
