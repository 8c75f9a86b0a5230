/**
 * FileManager (src/FileManager.cpp): the `files` and `file_shares` tables, the
 * permission chain of downloadFile, share-token creation and resolution, and the
 * owner-guarded mutations. Each table is a sequence of rows in insertion order; a
 * query with `LIMIT 1` returns the first matching row. The blob store under
 * ./uploads/ is a map from stored name to content. Time is one integer clock in
 * microseconds, the resolution of Poco's timestamps.
 */
module FileManager {
  import opened CppString

  /** One hour as a Poco::Timespan, in microseconds. */
  const MicrosPerHour: int := 3_600_000_000

  /** A row of `files`; `storedName` is the unique name the blob was saved under. */
  datatype FileRow = FileRow(
    id: int, owner: int, storedName: string, originalName: string,
    size: int, contentType: string, uploadDate: int, isPublic: bool)

  /** A row of `file_shares`; `None` stands for SQL NULL. */
  datatype ShareRow = ShareRow(
    fileId: int, sharedBy: int, sharedWith: Option<int>, token: string, expiresAt: Option<int>)

  /** A share is active while it has no expiry or its expiry lies strictly after now. */
  predicate Active(s: ShareRow, now: int) {
    s.expiresAt.None? || s.expiresAt.value > now
  }

  /** A row that downloadFile's share check counts: this file, this recipient, not expired. */
  predicate GrantsTo(s: ShareRow, fileId: int, user: int, now: int) {
    s.fileId == fileId && s.sharedWith == Some(user) && Active(s, now)
  }

  /** The recipient column, with a missing recipient read as 0. */
  function RecipientOf(s: ShareRow): int {
    s.sharedWith.GetOr(0)
  }

  /** File ids grow along the table (a serial key), and so do upload dates. */
  predicate Ordered(files: seq<FileRow>) {
    forall i, j :: 0 <= i < j < |files| ==>
      files[i].id < files[j].id && files[i].uploadDate <= files[j].uploadDate
  }

  /** No two share rows carry the same token. */
  predicate TokensDistinct(shares: seq<ShareRow>) {
    forall i, j :: 0 <= i < j < |shares| ==> shares[i].token != shares[j].token
  }

  /** generateUniqueFilename: the upload's timestamp in microseconds, "_", the original name. */
  function UniqueFilename(now: int, originalName: string): (name: string)
    ensures name != ""
  {
    IntToString(now) + "_" + originalName
  }

  /** Two uploads get the same stored name only at the same microsecond with the same name. */
  lemma UniqueFilenameInjective(t1: int, n1: string, t2: int, n2: string)
    requires UniqueFilename(t1, n1) == UniqueFilename(t2, n2)
    ensures t1 == t2 && n1 == n2
  {
    SplitAtSeparator(IntToString(t1), n1, IntToString(t2), n2, '_');
    IntToStringInjective(t1, t2);
  }

  // ---------------------------------------------------------------------------
  // Queries

  /** `k` is the first row of `files` with this id. */
  predicate FirstWithId(files: seq<FileRow>, id: int, k: int) {
    0 <= k < |files| && files[k].id == id && forall j :: 0 <= j < k ==> files[j].id != id
  }

  /** The metadata lookup: the first row with this id. */
  function FindFile(files: seq<FileRow>, id: int): (r: Option<FileRow>)
    ensures r.Some? ==> r.value in files && r.value.id == id
    ensures r.None? <==> forall i :: 0 <= i < |files| ==> files[i].id != id
    ensures forall k :: FirstWithId(files, id, k) ==> r == Some(files[k])
  {
    if files == [] then None
    else if files[0].id == id then Some(files[0])
    else
      var r := FindFile(files[1..], id);
      assert forall k :: FirstWithId(files, id, k) ==> FirstWithId(files[1..], id, k - 1);
      r
  }

  /** deleteFile's lookup: the first row with this id and this owner. */
  function FindOwnedFile(files: seq<FileRow>, id: int, owner: int): (r: Option<FileRow>)
    ensures r.Some? ==> r.value in files && r.value.id == id && r.value.owner == owner
    ensures r.None? <==> forall i :: 0 <= i < |files| ==> !(files[i].id == id && files[i].owner == owner)
  {
    if files == [] then None
    else if files[0].id == id && files[0].owner == owner then Some(files[0])
    else FindOwnedFile(files[1..], id, owner)
  }

  /** shareFile's ownership lookup: the owner column, which reads as 0 when no row matches. */
  function OwnerOf(files: seq<FileRow>, id: int): (owner: int)
    ensures (forall i :: 0 <= i < |files| ==> files[i].id != id) ==> owner == 0
    ensures forall k :: FirstWithId(files, id, k) ==> owner == files[k].owner
  {
    match FindFile(files, id)
    case Some(f) => f.owner
    case None => 0
  }

  /** downloadFile's share check: the number of active shares of this file to this user. */
  function CountActiveShares(shares: seq<ShareRow>, fileId: int, user: int, now: int): (n: nat)
    ensures n <= |shares|
    ensures n > 0 <==> exists i :: 0 <= i < |shares| && GrantsTo(shares[i], fileId, user, now)
  {
    if shares == [] then 0
    else
      var rest := CountActiveShares(shares[1..], fileId, user, now);
      assert forall i :: 0 < i < |shares| ==> shares[i] == shares[1..][i - 1];
      assert rest > 0 ==> exists i :: 0 <= i < |shares| && GrantsTo(shares[i], fileId, user, now);
      (if GrantsTo(shares[0], fileId, user, now) then 1 else 0) + rest
  }

  /** shareFile's dedup query: the first active share of this file to this recipient. */
  function FindActiveShare(shares: seq<ShareRow>, fileId: int, user: int, now: int): (r: Option<ShareRow>)
    ensures r.Some? ==> r.value in shares && GrantsTo(r.value, fileId, user, now)
    ensures r.None? <==> forall i :: 0 <= i < |shares| ==> !GrantsTo(shares[i], fileId, user, now)
  {
    if shares == [] then None
    else if GrantsTo(shares[0], fileId, user, now) then Some(shares[0])
    else FindActiveShare(shares[1..], fileId, user, now)
  }

  /** accessSharedFile's lookup: the first row carrying `token` that is still active. */
  function FindLiveToken(shares: seq<ShareRow>, token: string, now: int): (r: Option<ShareRow>)
    ensures r.Some? ==> r.value in shares && r.value.token == token && Active(r.value, now)
    ensures r.None? <==> forall i :: 0 <= i < |shares| ==> !(shares[i].token == token && Active(shares[i], now))
  {
    if shares == [] then None
    else if shares[0].token == token && Active(shares[0], now) then Some(shares[0])
    else FindLiveToken(shares[1..], token, now)
  }

  // ---------------------------------------------------------------------------
  // downloadFile

  /**
   * Why downloadFile lets a requester through, or that it does not. `ByToken` is
   * produced only by the corrected decision DecideFixed below.
   */
  datatype Access = ByOwnership | ByPublicFlag | ByZeroRequester | ByToken | ByShare | Denied

  /**
   * downloadFile's permission chain for a fetched row: owner, then the public flag,
   * then any requester id 0, then, for a positive id, an active share to that user.
   */
  function Decide(f: FileRow, requester: int, shares: seq<ShareRow>, now: int): (a: Access)
    ensures a == ByOwnership <==> requester == f.owner
    ensures a != Denied <==>
      requester == f.owner || f.isPublic || requester == 0 ||
      (requester > 0 && exists i :: 0 <= i < |shares| && GrantsTo(shares[i], f.id, requester, now))
  {
    if f.owner == requester then ByOwnership
    else if f.isPublic then ByPublicFlag
    else if requester == 0 then ByZeroRequester
    else if requester > 0 && CountActiveShares(shares, f.id, requester, now) > 0 then ByShare
    else Denied
  }

  /** What a successful download hands back: the blob's bytes and the row as FileInfo. */
  datatype Fetched = Fetched(content: string, info: FileRow)

  /**
   * downloadFile: no row (the stored name reads as empty) fails, a refused requester
   * fails, a blob that cannot be read fails; otherwise content and info are produced.
   */
  function Download(files: seq<FileRow>, shares: seq<ShareRow>, disk: map<string, string>,
                    fileId: int, requester: int, now: int): (r: Option<Fetched>)
    ensures r.Some? ==>
      r.value.info in files && r.value.info.id == fileId &&
      r.value.info.storedName in disk && r.value.content == disk[r.value.info.storedName] &&
      Decide(r.value.info, requester, shares, now) != Denied
  {
    match FindFile(files, fileId)
    case None => None
    case Some(f) =>
      if f.storedName == "" || Decide(f, requester, shares, now) == Denied || f.storedName !in disk then None
      else Some(Fetched(disk[f.storedName], f))
  }

  // ---------------------------------------------------------------------------
  // accessSharedFile

  /** The outcome of accessSharedFile's own checks, before it calls downloadFile. */
  datatype Resolution = NoLiveShare | NotRecipient(fileId: int) | Resolved(fileId: int)

  /**
   * accessSharedFile's checks: an unknown or expired token (file id read as 0) fails;
   * a scoped token whose recipient is not the requester fails; otherwise the file id.
   */
  function Resolve(shares: seq<ShareRow>, token: string, requester: int, now: int): (r: Resolution)
    ensures r.Resolved? ==>
      r.fileId != 0 &&
      exists s :: (s in shares && s.token == token && Active(s, now) && s.fileId == r.fileId &&
                   (RecipientOf(s) <= 0 || RecipientOf(s) == requester))
    ensures r.NoLiveShare? <==>
      (forall i :: 0 <= i < |shares| ==> !(shares[i].token == token && Active(shares[i], now))) ||
      FindLiveToken(shares, token, now).value.fileId == 0
  {
    match FindLiveToken(shares, token, now)
    case None => NoLiveShare
    case Some(s) =>
      if s.fileId == 0 then NoLiveShare
      else if RecipientOf(s) > 0 && RecipientOf(s) != requester then NotRecipient(s.fileId)
      else Resolved(s.fileId)
  }

  /** accessSharedFile: the checks above, then downloadFile with the same requester id. */
  function AccessShared(files: seq<FileRow>, shares: seq<ShareRow>, disk: map<string, string>,
                        token: string, requester: int, now: int): (r: Option<Fetched>)
    ensures r.Some? ==>
      exists s :: s in shares && s.token == token && Active(s, now) && s.fileId != 0 &&
        (RecipientOf(s) <= 0 || RecipientOf(s) == requester) &&
        r == Download(files, shares, disk, s.fileId, requester, now)
  {
    match Resolve(shares, token, requester, now)
    case Resolved(id) => Download(files, shares, disk, id, requester, now)
    case _ => None
  }

  // ---------------------------------------------------------------------------
  // shareFile

  /** What shareFile returns (or throws) and the `file_shares` table afterwards. */
  datatype ShareEffect = ShareEffect(result: Outcome<string>, shares: seq<ShareRow>)

  /** The row shareFile inserts; `shared_with` is set only for a positive recipient. */
  function NewShare(fileId: int, ownerId: int, recipient: int, token: string, expiresAt: int): ShareRow {
    ShareRow(fileId, ownerId, if recipient > 0 then Some(recipient) else None, token, Some(expiresAt))
  }

  /**
   * shareFile's insert, given what std::stoi made of the hours (`None` when it
   * threw): add a row expiring `hours` after `now` under the new token; a failed
   * insert returns "".
   */
  function InsertShare(shares: seq<ShareRow>, fileId: int, ownerId: int, recipient: int,
                       hours: Option<int>, now: int, newToken: string, storeOk: bool): (e: ShareEffect)
    ensures e.result.Threw? <==> hours.None?
    ensures e.shares == shares ||
      (e.result == Returned(newToken) && hours.Some? &&
       e.shares == shares + [NewShare(fileId, ownerId, recipient, newToken, now + hours.value * MicrosPerHour)])
    ensures hours.Some? && storeOk ==> e.result == Returned(newToken) && |e.shares| == |shares| + 1
    ensures hours.Some? && !storeOk ==> e == ShareEffect(Returned(""), shares)
  {
    match hours
    case None => ShareEffect(Threw, shares)
    case Some(h) =>
      if storeOk then
        ShareEffect(Returned(newToken), shares + [NewShare(fileId, ownerId, recipient, newToken, now + h * MicrosPerHour)])
      else ShareEffect(Returned(""), shares)
  }

  /**
   * shareFile: re-check ownership; for a positive recipient return the token of an
   * active share of this file to them; otherwise insert a new row.
   */
  function Share(files: seq<FileRow>, shares: seq<ShareRow>, fileId: int, ownerId: int,
                 recipient: int, expiryHours: string, now: int, newToken: string, storeOk: bool): (e: ShareEffect)
    ensures OwnerOf(files, fileId) != ownerId ==> e == ShareEffect(Returned(""), shares)
    ensures e.shares == shares ||
      (OwnerOf(files, fileId) == ownerId && e.result == Returned(newToken) && Stoi(expiryHours).Some? &&
       e.shares == shares + [NewShare(fileId, ownerId, recipient, newToken, now + Stoi(expiryHours).value * MicrosPerHour)])
    ensures recipient <= 0 && OwnerOf(files, fileId) == ownerId && Stoi(expiryHours).Some? && storeOk ==>
      |e.shares| == |shares| + 1
    ensures OwnerOf(files, fileId) == ownerId && recipient > 0 &&
            FindActiveShare(shares, fileId, recipient, now).Some? &&
            FindActiveShare(shares, fileId, recipient, now).value.token != "" ==>
      e == ShareEffect(Returned(FindActiveShare(shares, fileId, recipient, now).value.token), shares)
    ensures OwnerOf(files, fileId) == ownerId &&
            (recipient <= 0 || FindActiveShare(shares, fileId, recipient, now).None? ||
             FindActiveShare(shares, fileId, recipient, now).value.token == "") ==>
      e == InsertShare(shares, fileId, ownerId, recipient, Stoi(expiryHours), now, newToken, storeOk)
  {
    if OwnerOf(files, fileId) != ownerId then ShareEffect(Returned(""), shares)
    else
      var existing := if recipient > 0 then FindActiveShare(shares, fileId, recipient, now) else None;
      if existing.Some? && existing.value.token != "" then ShareEffect(Returned(existing.value.token), shares)
      else InsertShare(shares, fileId, ownerId, recipient, Stoi(expiryHours), now, newToken, storeOk)
  }

  // ---------------------------------------------------------------------------
  // deleteFile and setFilePublic

  /** deleteFile's delete: every row with this id and this owner goes. */
  function RemoveFile(files: seq<FileRow>, id: int, owner: int): (r: seq<FileRow>)
    ensures forall f :: f in r <==> f in files && !(f.id == id && f.owner == owner)
  {
    if files == [] then []
    else
      var rest := RemoveFile(files[1..], id, owner);
      assert forall f :: f in files[1..] ==> f in files;
      if files[0].id == id && files[0].owner == owner then rest else [files[0]] + rest
  }

  /** A row that precedes every row of an ordered table can be put in front of it. */
  lemma PrependOrdered(x: FileRow, rest: seq<FileRow>)
    requires Ordered(rest)
    requires forall f :: f in rest ==> x.id < f.id && x.uploadDate <= f.uploadDate
    ensures Ordered([x] + rest)
  {
    var r := [x] + rest;
    forall i, j | 0 <= i < j < |r|
      ensures r[i].id < r[j].id && r[i].uploadDate <= r[j].uploadDate
    {
      assert r[j] == rest[j - 1];
      if i > 0 {
        assert r[i] == rest[i - 1];
      }
    }
  }

  /** The first row of an ordered table precedes all the others. */
  lemma HeadPrecedesTail(files: seq<FileRow>)
    requires Ordered(files) && files != []
    ensures forall f :: f in files[1..] ==> files[0].id < f.id && files[0].uploadDate <= f.uploadDate
  {
    forall f | f in files[1..]
      ensures files[0].id < f.id && files[0].uploadDate <= f.uploadDate
    {
      var k :| 0 <= k < |files[1..]| && files[1..][k] == f;
      assert files[k + 1] == f;
    }
  }

  /** Deleting rows keeps ids and upload dates in table order. */
  lemma {:induction false} RemoveFileOrdered(files: seq<FileRow>, id: int, owner: int)
    requires Ordered(files)
    ensures Ordered(RemoveFile(files, id, owner))
  {
    if files != [] {
      assert Ordered(files[1..]);
      RemoveFileOrdered(files[1..], id, owner);
      if !(files[0].id == id && files[0].owner == owner) {
        HeadPrecedesTail(files);
        PrependOrdered(files[0], RemoveFile(files[1..], id, owner));
      }
    }
  }

  /** setFilePublic's update: the flag changes on every row with this id and this owner. */
  function WithPublicFlag(files: seq<FileRow>, id: int, owner: int, flag: bool): (r: seq<FileRow>)
    ensures |r| == |files|
    ensures forall i :: 0 <= i < |files| ==>
      r[i] == if files[i].id == id && files[i].owner == owner then files[i].(isPublic := flag) else files[i]
  {
    if files == [] then []
    else
      var head := if files[0].id == id && files[0].owner == owner then files[0].(isPublic := flag) else files[0];
      [head] + WithPublicFlag(files[1..], id, owner, flag)
  }

  // ---------------------------------------------------------------------------
  // The tables as mutable state

  /** The `files` table: serial ids below `nextId`, in order, each with a stored name. */
  predicate FilesValid(files: seq<FileRow>, nextId: int) {
    0 < nextId && Ordered(files) &&
    forall i :: 0 <= i < |files| ==> 0 < files[i].id < nextId && files[i].storedName != ""
  }

  /** The `file_shares` table: every token non-empty and no token used twice. */
  predicate SharesValid(shares: seq<ShareRow>) {
    (forall i :: 0 <= i < |shares| ==> shares[i].token != "") && TokensDistinct(shares)
  }

  class FileStore {
    /** The `files` table. */
    var files: seq<FileRow>
    /** The `file_shares` table. */
    var shares: seq<ShareRow>
    /** The blob store: stored name to content. */
    var disk: map<string, string>
    /** The next value of the serial `file_id`. */
    var nextId: int

    ghost predicate Valid()
      reads this
    {
      FilesValid(files, nextId) && SharesValid(shares)
    }

    constructor ()
      ensures Valid()
      ensures files == [] && shares == [] && disk == map[] && nextId == 1
    {
      files, shares, disk, nextId := [], [], map[], 1;
    }

    /**
     * uploadFile: save the blob under a timestamped name (a failed save returns -1),
     * then insert the row (a failed insert returns -1 and leaves the blob behind) and
     * return the new file id. `now` must not precede an earlier upload.
     */
    method UploadFile(originalName: string, content: string, contentType: string, ownerId: int,
                      now: int, diskOk: bool, storeOk: bool) returns (fileId: int)
      requires Valid()
      requires forall i :: 0 <= i < |files| ==> files[i].uploadDate <= now
      modifies this
      ensures Valid()
      ensures shares == old(shares)
      ensures !diskOk ==> fileId == -1 && files == old(files) && disk == old(disk) && nextId == old(nextId)
      ensures diskOk ==> disk == old(disk)[UniqueFilename(now, originalName) := content]
      ensures diskOk && !storeOk ==> fileId == -1 && files == old(files) && nextId == old(nextId)
      ensures diskOk && storeOk ==>
        fileId == old(nextId) > 0 && nextId == old(nextId) + 1 &&
        files == old(files) + [FileRow(fileId, ownerId, UniqueFilename(now, originalName), originalName,
                                       |content|, contentType, now, false)]
    {
      var name := UniqueFilename(now, originalName);
      if !diskOk {
        return -1;
      }
      disk := disk[name := content];
      if !storeOk {
        return -1;
      }
      fileId := nextId;
      files := files + [FileRow(fileId, ownerId, name, originalName, |content|, contentType, now, false)];
      nextId := nextId + 1;
    }

    /** downloadFile, step by step over the current tables. */
    method DownloadFile(fileId: int, requester: int, now: int) returns (r: Option<Fetched>)
      requires Valid()
      ensures r == Download(files, shares, disk, fileId, requester, now)
    {
      var row := FindFile(files, fileId);
      if row.None? || row.value.storedName == "" {
        return None;
      }
      var f := row.value;
      var hasAccess := false;
      if f.owner == requester {
        hasAccess := true;
      } else if f.isPublic {
        hasAccess := true;
      } else if requester == 0 {
        hasAccess := true;
      } else if requester > 0 {
        var shareCount := CountActiveShares(shares, fileId, requester, now);
        hasAccess := shareCount > 0;
      }
      if !hasAccess || f.storedName !in disk {
        return None;
      }
      r := Some(Fetched(disk[f.storedName], f));
    }

    /** accessSharedFile: resolve the token, check the recipient, then downloadFile. */
    method AccessSharedFile(token: string, requester: int, now: int) returns (r: Option<Fetched>)
      requires Valid()
      ensures r == AccessShared(files, shares, disk, token, requester, now)
    {
      var row := FindLiveToken(shares, token, now);
      var fileId := if row.Some? then row.value.fileId else 0;
      var sharedWith := if row.Some? then RecipientOf(row.value) else 0;
      if fileId == 0 {
        return None;
      }
      if sharedWith > 0 && sharedWith != requester {
        return None;
      }
      r := DownloadFile(fileId, requester, now);
    }

    /** shareFile over the current tables; `newToken` is the newly generated token. */
    method ShareFile(fileId: int, ownerId: int, recipient: int, expiryHours: string, now: int,
                     newToken: string, storeOk: bool) returns (r: Outcome<string>)
      requires Valid()
      requires newToken != "" && forall i :: 0 <= i < |shares| ==> shares[i].token != newToken
      modifies this`shares
      ensures Valid()
      ensures ShareEffect(r, shares) == Share(files, old(shares), fileId, ownerId, recipient, expiryHours, now, newToken, storeOk)
    {
      if OwnerOf(files, fileId) != ownerId {
        return Returned("");
      }
      if recipient > 0 {
        var existing := FindActiveShare(shares, fileId, recipient, now);
        if existing.Some? && existing.value.token != "" {
          return Returned(existing.value.token);
        }
      }
      var hours := Stoi(expiryHours);
      r := InsertRow(fileId, ownerId, recipient, hours, now, newToken, storeOk);
    }

    /** shareFile's INSERT, once std::stoi has read the hours (`None` when it threw). */
    method InsertRow(fileId: int, ownerId: int, recipient: int, hours: Option<int>, now: int,
                     newToken: string, storeOk: bool) returns (r: Outcome<string>)
      requires Valid()
      requires newToken != "" && forall i :: 0 <= i < |shares| ==> shares[i].token != newToken
      modifies this`shares
      ensures Valid()
      ensures ShareEffect(r, shares) == InsertShare(old(shares), fileId, ownerId, recipient, hours, now, newToken, storeOk)
    {
      if hours.None? {
        return Threw;
      }
      if !storeOk {
        return Returned("");
      }
      var row := NewShare(fileId, ownerId, recipient, newToken, now + hours.value * MicrosPerHour);
      AppendDistinctToken(shares, row);
      shares := shares + [row];
      r := Returned(newToken);
    }

    /**
     * deleteFile: only a row matching both the id and the owner is removed, together
     * with its blob; otherwise nothing changes and the result is false.
     */
    method DeleteFile(fileId: int, ownerId: int) returns (ok: bool)
      requires Valid()
      modifies this`files, this`disk
      ensures Valid()
      ensures ok <==> exists i :: 0 <= i < |old(files)| && old(files)[i].id == fileId && old(files)[i].owner == ownerId
      ensures files == RemoveFile(old(files), fileId, ownerId)
      ensures !ok ==> files == old(files) && disk == old(disk)
      ensures ok ==> disk == old(disk) - {FindOwnedFile(old(files), fileId, ownerId).value.storedName}
    {
      var row := FindOwnedFile(files, fileId, ownerId);
      if row.None? || row.value.storedName == "" {
        RemoveNothing(files, fileId, ownerId);
        return false;
      }
      RemoveFileOrdered(files, fileId, ownerId);
      files := RemoveFile(files, fileId, ownerId);
      disk := disk - {row.value.storedName};
      ok := true;
    }

    /**
     * setFilePublic: the flag changes only on a row matching both the id and the owner;
     * the result is true whether or not a row matched.
     */
    method SetFilePublic(fileId: int, ownerId: int, isPublic: bool) returns (ok: bool)
      requires Valid()
      modifies this`files
      ensures Valid()
      ensures ok
      ensures files == WithPublicFlag(old(files), fileId, ownerId, isPublic)
    {
      FlagKeepsFilesValid(files, nextId, fileId, ownerId, isPublic);
      files := WithPublicFlag(files, fileId, ownerId, isPublic);
      ok := true;
    }

    /**
     * getUserFiles: every file the user owns, newest first (`ORDER BY upload_date DESC`),
     * copied out one row at a time.
     */
    method GetUserFiles(userId: int) returns (r: seq<FileRow>)
      requires Valid()
      ensures forall f :: f in r <==> f in files && f.owner == userId
      ensures forall i, j :: 0 <= i < j < |r| ==> r[i].id > r[j].id && r[i].uploadDate >= r[j].uploadDate
    {
      r := [];
      var k := |files|;
      while k > 0
        invariant 0 <= k <= |files|
        invariant forall f :: f in r <==> f in files[k..] && f.owner == userId
        invariant forall i, j :: 0 <= i < j < |r| ==> r[i].id > r[j].id && r[i].uploadDate >= r[j].uploadDate
        invariant forall i, j :: 0 <= i < |r| && 0 <= j < k ==> r[i].id > files[j].id && r[i].uploadDate >= files[j].uploadDate
      {
        k := k - 1;
        if files[k].owner == userId {
          r := r + [files[k]];
        }
      }
    }
  }

  /** Appending a row under an unused token keeps tokens distinct. */
  lemma AppendDistinctToken(shares: seq<ShareRow>, row: ShareRow)
    requires SharesValid(shares) && row.token != ""
    requires forall i :: 0 <= i < |shares| ==> shares[i].token != row.token
    ensures SharesValid(shares + [row])
  {
    var t := shares + [row];
    forall i, j | 0 <= i < j < |t|
      ensures t[i].token != t[j].token
    {
      assert t[i] == shares[i];
    }
  }

  /** Setting a flag keeps every id, upload date and stored name, so the table stays valid. */
  lemma FlagKeepsFilesValid(files: seq<FileRow>, nextId: int, id: int, owner: int, flag: bool)
    requires FilesValid(files, nextId)
    ensures FilesValid(WithPublicFlag(files, id, owner, flag), nextId)
  {
    var r := WithPublicFlag(files, id, owner, flag);
    assert forall i :: 0 <= i < |r| ==>
      r[i].id == files[i].id && r[i].uploadDate == files[i].uploadDate && r[i].storedName == files[i].storedName;
  }

  /** With no matching row, the DELETE leaves the table as it was. */
  lemma {:induction false} RemoveNothing(files: seq<FileRow>, id: int, owner: int)
    requires forall i :: 0 <= i < |files| ==> !(files[i].id == id && files[i].owner == owner)
    ensures RemoveFile(files, id, owner) == files
  {
    if files != [] {
      RemoveNothing(files[1..], id, owner);
    }
  }

  // ---------------------------------------------------------------------------
  // Properties of share creation and resolution

  /** The recipient restriction shareFile stores for a requested recipient id. */
  function ScopeOf(recipient: int): Option<int> {
    if recipient > 0 then Some(recipient) else None
  }

  /** The dedup query over a table with one more row: earlier rows win, as with LIMIT 1. */
  lemma {:induction false} FindActiveShareAppend(shares: seq<ShareRow>, row: ShareRow, fileId: int, user: int, now: int)
    ensures FindActiveShare(shares + [row], fileId, user, now) ==
      if FindActiveShare(shares, fileId, user, now).Some? then FindActiveShare(shares, fileId, user, now)
      else if GrantsTo(row, fileId, user, now) then Some(row)
      else None
  {
    if shares != [] {
      assert (shares + [row])[1..] == shares[1..] + [row];
      FindActiveShareAppend(shares[1..], row, fileId, user, now);
    }
  }

  /** With distinct tokens, a token's row is found exactly while it is active. */
  lemma LiveTokenIsItsRow(shares: seq<ShareRow>, k: int, now: int)
    requires TokensDistinct(shares) && 0 <= k < |shares|
    ensures FindLiveToken(shares, shares[k].token, now) == if Active(shares[k], now) then Some(shares[k]) else None
  {
    var r := FindLiveToken(shares, shares[k].token, now);
    if r.Some? {
      var j :| 0 <= j < |shares| && shares[j] == r.value;
      assert j == k;
    }
  }

  /** downloadFile produces the blob and the row whenever the row, the access and the blob are there. */
  lemma DownloadGrantedWhenAllowed(files: seq<FileRow>, shares: seq<ShareRow>, disk: map<string, string>,
                                   fileId: int, requester: int, now: int, f: FileRow)
    requires FindFile(files, fileId) == Some(f) && f.storedName != "" && f.storedName in disk
    requires Decide(f, requester, shares, now) != Denied
    ensures Download(files, shares, disk, fileId, requester, now) == Some(Fetched(disk[f.storedName], f))
  {
  }

  /**
   * With distinct tokens, accessSharedFile on a row's token follows that row: an
   * active row for a real file whose recipient (if any) is the requester delegates
   * to downloadFile with the same requester id, and anything else opens nothing.
   */
  lemma AccessSharedByRow(files: seq<FileRow>, shares: seq<ShareRow>, disk: map<string, string>,
                          k: int, requester: int, now: int)
    requires TokensDistinct(shares) && 0 <= k < |shares|
    ensures AccessShared(files, shares, disk, shares[k].token, requester, now) ==
      if Active(shares[k], now) && shares[k].fileId != 0 &&
         (RecipientOf(shares[k]) <= 0 || RecipientOf(shares[k]) == requester)
      then Download(files, shares, disk, shares[k].fileId, requester, now)
      else None
  {
    LiveTokenIsItsRow(shares, k, now);
  }

  /** A token that no active row carries opens nothing, for any requester. */
  lemma AccessSharedWithoutLiveRow(files: seq<FileRow>, shares: seq<ShareRow>, disk: map<string, string>,
                                   token: string, requester: int, now: int)
    requires forall i :: 0 <= i < |shares| ==> !(shares[i].token == token && Active(shares[i], now))
    ensures AccessShared(files, shares, disk, token, requester, now) == None
  {
  }

  /** Once its row has expired, a token opens nothing, for any requester. */
  lemma ExpiredTokenRefused(files: seq<FileRow>, shares: seq<ShareRow>, disk: map<string, string>,
                            k: int, requester: int, now: int)
    requires TokensDistinct(shares) && 0 <= k < |shares| && !Active(shares[k], now)
    ensures AccessShared(files, shares, disk, shares[k].token, requester, now) == None
  {
    LiveTokenIsItsRow(shares, k, now);
  }

  /**
   * Repeating a share request for the same positive recipient returns the same token
   * and adds no row, provided the first call's row is still active (a positive number
   * of hours when it was created).
   */
  lemma ShareIdempotent(files: seq<FileRow>, shares: seq<ShareRow>, fileId: int, ownerId: int,
                        recipient: int, expiryHours: string, now: int,
                        token1: string, ok1: bool, token2: string, ok2: bool)
    requires forall i :: 0 <= i < |shares| ==> shares[i].token != ""
    requires recipient > 0
    requires Stoi(expiryHours).Some? ==> Stoi(expiryHours).value > 0
    requires Share(files, shares, fileId, ownerId, recipient, expiryHours, now, token1, ok1).result.Returned?
    requires Share(files, shares, fileId, ownerId, recipient, expiryHours, now, token1, ok1).result.value != ""
    ensures var first := Share(files, shares, fileId, ownerId, recipient, expiryHours, now, token1, ok1);
      Share(files, first.shares, fileId, ownerId, recipient, expiryHours, now, token2, ok2) == first
  {
    var first := Share(files, shares, fileId, ownerId, recipient, expiryHours, now, token1, ok1);
    if first.shares != shares {
      var row := NewShare(fileId, ownerId, recipient, token1, now + Stoi(expiryHours).value * MicrosPerHour);
      assert first.shares == shares + [row];
      FindActiveShareAppend(shares, row, fileId, recipient, now);
    }
  }

  /**
   * A token returned by shareFile names a row of the new table for exactly the file
   * and recipient restriction asked for; while that row is active the token resolves
   * to the file (for the named recipient only, when there is one), and once it has
   * expired the token no longer resolves at all; accessSharedFile then hands exactly
   * the admitted requesters to downloadFile for that file.
   */
  lemma ShareThenResolve(files: seq<FileRow>, shares: seq<ShareRow>, disk: map<string, string>, fileId: int, ownerId: int,
                         recipient: int, expiryHours: string, now: int, newToken: string, storeOk: bool,
                         later: int, requester: int)
    requires SharesValid(shares)
    requires newToken != "" && forall i :: 0 <= i < |shares| ==> shares[i].token != newToken
    requires fileId != 0
    requires Share(files, shares, fileId, ownerId, recipient, expiryHours, now, newToken, storeOk).result.Returned?
    requires Share(files, shares, fileId, ownerId, recipient, expiryHours, now, newToken, storeOk).result.value != ""
    ensures var e := Share(files, shares, fileId, ownerId, recipient, expiryHours, now, newToken, storeOk);
      exists k :: 0 <= k < |e.shares| && e.shares[k].token == e.result.value &&
        e.shares[k].fileId == fileId && e.shares[k].sharedWith == ScopeOf(recipient) &&
        (Resolve(e.shares, e.result.value, requester, later) ==
          if !Active(e.shares[k], later) then NoLiveShare
          else if recipient > 0 && requester != recipient then NotRecipient(fileId)
          else Resolved(fileId)) &&
        AccessShared(files, e.shares, disk, e.result.value, requester, later) ==
          if Active(e.shares[k], later) && (recipient <= 0 || requester == recipient)
          then Download(files, e.shares, disk, fileId, requester, later)
          else None
  {
    var e := Share(files, shares, fileId, ownerId, recipient, expiryHours, now, newToken, storeOk);
    var k := ShareNamesRow(files, shares, fileId, ownerId, recipient, expiryHours, now, newToken, storeOk);
    assert RecipientOf(e.shares[k]) == if recipient > 0 then recipient else 0;
    ResolveByRow(e.shares, k, requester, later);
    AccessSharedByRow(files, e.shares, disk, k, requester, later);
  }

  /** The row a non-empty token from shareFile names, in a table whose tokens stay distinct. */
  lemma ShareNamesRow(files: seq<FileRow>, shares: seq<ShareRow>, fileId: int, ownerId: int,
                      recipient: int, expiryHours: string, now: int, newToken: string, storeOk: bool)
      returns (k: int)
    requires SharesValid(shares)
    requires newToken != "" && forall i :: 0 <= i < |shares| ==> shares[i].token != newToken
    requires Share(files, shares, fileId, ownerId, recipient, expiryHours, now, newToken, storeOk).result.Returned?
    requires Share(files, shares, fileId, ownerId, recipient, expiryHours, now, newToken, storeOk).result.value != ""
    ensures var e := Share(files, shares, fileId, ownerId, recipient, expiryHours, now, newToken, storeOk);
      TokensDistinct(e.shares) && 0 <= k < |e.shares| && e.shares[k].token == e.result.value &&
      e.shares[k].fileId == fileId && e.shares[k].sharedWith == ScopeOf(recipient)
  {
    var e := Share(files, shares, fileId, ownerId, recipient, expiryHours, now, newToken, storeOk);
    if e.shares == shares {
      var x := FindActiveShare(shares, fileId, recipient, now).value;
      k :| 0 <= k < |shares| && shares[k] == x;
    } else {
      var row := e.shares[|shares|];
      AppendDistinctToken(shares, row);
      k := |shares|;
    }
  }

  /** With distinct tokens, what a row's token resolves to is decided by that row alone. */
  lemma ResolveByRow(shares: seq<ShareRow>, k: int, requester: int, now: int)
    requires TokensDistinct(shares) && 0 <= k < |shares|
    ensures Resolve(shares, shares[k].token, requester, now) ==
      if !Active(shares[k], now) || shares[k].fileId == 0 then NoLiveShare
      else if RecipientOf(shares[k]) > 0 && RecipientOf(shares[k]) != requester then NotRecipient(shares[k].fileId)
      else Resolved(shares[k].fileId)
  {
    LiveTokenIsItsRow(shares, k, now);
  }

  /**
   * The as-written chain refuses a recipient-less ("anyone with the link") token to a
   * signed-in user who is neither the owner nor a named recipient of the private file,
   * while it serves the same token to a caller with no session.
   */
  lemma UnscopedLinkRefusedWhenSignedIn(files: seq<FileRow>, shares: seq<ShareRow>, disk: map<string, string>,
                                        token: string, requester: int, now: int, s: ShareRow, f: FileRow)
    requires FindLiveToken(shares, token, now) == Some(s) && s.sharedWith == None && s.fileId != 0
    requires FindFile(files, s.fileId) == Some(f) && !f.isPublic && f.storedName != "" && f.storedName in disk
    requires requester > 0 && requester != f.owner && f.owner != 0
    requires forall i :: 0 <= i < |shares| ==> !GrantsTo(shares[i], f.id, requester, now)
    ensures AccessShared(files, shares, disk, token, requester, now) == None
    ensures AccessShared(files, shares, disk, token, 0, now) == Some(Fetched(disk[f.storedName], f))
  {
  }

  /** The requester id 0 passes downloadFile's chain for every file that exists. */
  lemma ZeroRequesterReadsEveryFile(files: seq<FileRow>, shares: seq<ShareRow>, disk: map<string, string>,
                                    fileId: int, now: int, f: FileRow)
    requires FindFile(files, fileId) == Some(f) && f.storedName != "" && f.storedName in disk
    ensures Download(files, shares, disk, fileId, 0, now) == Some(Fetched(disk[f.storedName], f))
  {
  }

  // ---------------------------------------------------------------------------
  // Corrected access decision: an explicit token context instead of requester id 0

  /**
   * The permission chain with "no requester" kept apart from user ids and with a
   * resolved share token passed explicitly (`viaToken`).
   */
  function DecideFixed(f: FileRow, requester: Option<int>, viaToken: bool,
                       shares: seq<ShareRow>, now: int): (a: Access)
    ensures a != ByZeroRequester
    ensures a != Denied <==>
      requester == Some(f.owner) || f.isPublic || viaToken ||
      (requester.Some? && requester.value > 0 &&
       exists i :: 0 <= i < |shares| && GrantsTo(shares[i], f.id, requester.value, now))
  {
    if requester == Some(f.owner) then ByOwnership
    else if f.isPublic then ByPublicFlag
    else if viaToken then ByToken
    else if requester.Some? && requester.value > 0 && CountActiveShares(shares, f.id, requester.value, now) > 0 then ByShare
    else Denied
  }

  /** downloadFile under the corrected decision. */
  function DownloadFixed(files: seq<FileRow>, shares: seq<ShareRow>, disk: map<string, string>,
                         fileId: int, requester: Option<int>, viaToken: bool, now: int): (r: Option<Fetched>)
    ensures r.Some? ==>
      r.value.info in files && r.value.info.id == fileId &&
      r.value.info.storedName in disk && r.value.content == disk[r.value.info.storedName] &&
      DecideFixed(r.value.info, requester, viaToken, shares, now) != Denied
  {
    match FindFile(files, fileId)
    case None => None
    case Some(f) =>
      if f.storedName == "" || DecideFixed(f, requester, viaToken, shares, now) == Denied || f.storedName !in disk then None
      else Some(Fetched(disk[f.storedName], f))
  }

  /** accessSharedFile under the corrected decision: a resolved token is the credential. */
  function AccessSharedFixed(files: seq<FileRow>, shares: seq<ShareRow>, disk: map<string, string>,
                             token: string, requester: Option<int>, now: int): (r: Option<Fetched>)
    ensures r.Some? ==>
      exists s :: s in shares && s.token == token && Active(s, now) && s.fileId != 0 &&
        (RecipientOf(s) <= 0 || requester == Some(RecipientOf(s))) &&
        r == DownloadFixed(files, shares, disk, s.fileId, requester, true, now)
    ensures FindLiveToken(shares, token, now).Some? ==>
      var s := FindLiveToken(shares, token, now).value;
      s.fileId != 0 && (RecipientOf(s) <= 0 || requester == Some(RecipientOf(s))) &&
      FindFile(files, s.fileId).Some? && FindFile(files, s.fileId).value.storedName != "" &&
      FindFile(files, s.fileId).value.storedName in disk ==>
        r == Some(Fetched(disk[FindFile(files, s.fileId).value.storedName], FindFile(files, s.fileId).value))
  {
    match FindLiveToken(shares, token, now)
    case None => None
    case Some(s) =>
      if s.fileId == 0 || (RecipientOf(s) > 0 && requester != Some(RecipientOf(s))) then None
      else DownloadFixed(files, shares, disk, s.fileId, requester, true, now)
  }

  /** Without a token, the corrected chain gives a caller with no session public files only. */
  lemma FixedAnonymousDirectReadsPublicOnly(files: seq<FileRow>, shares: seq<ShareRow>, disk: map<string, string>,
                                            fileId: int, now: int)
    ensures DownloadFixed(files, shares, disk, fileId, None, false, now).Some? ==>
      DownloadFixed(files, shares, disk, fileId, None, false, now).value.info.isPublic
  {
  }

  /** For every non-zero user id the corrected download decides exactly as the original. */
  lemma FixedAgreesForUserIds(files: seq<FileRow>, shares: seq<ShareRow>, disk: map<string, string>,
                              fileId: int, user: int, now: int)
    requires user != 0
    ensures DownloadFixed(files, shares, disk, fileId, Some(user), false, now) == Download(files, shares, disk, fileId, user, now)
  {
  }

  /** Under the corrected decision a live recipient-less token serves every caller. */
  lemma FixedLinkServesEveryone(files: seq<FileRow>, shares: seq<ShareRow>, disk: map<string, string>,
                                token: string, requester: Option<int>, now: int, s: ShareRow, f: FileRow)
    requires FindLiveToken(shares, token, now) == Some(s) && s.sharedWith == None && s.fileId != 0
    requires FindFile(files, s.fileId) == Some(f) && f.storedName != "" && f.storedName in disk
    ensures AccessSharedFixed(files, shares, disk, token, requester, now) == Some(Fetched(disk[f.storedName], f))
  {
  }
}
