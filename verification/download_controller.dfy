/** The public download page's handler
    (backend/src/controller/downloadController.js): look an active share up
    by its id, refuse it once expired, otherwise count the download. */
module DownloadController {
  import opened Wrappers
  import opened Strings
  import opened Http
  import opened Shares
  import opened FileHelpers
  import opened UploadController

  /** The `data` of a successful lookup. */
  datatype DownloadView = DownloadView(
    fileName: string,
    fileSize: int,
    fileType: string,
    url: string,
    uploaderName: string,
    createdAt: int,
    downloadCount: int)

  const NotFoundOrDeleted: string := "File not found or has been deleted"
  const LinkExpired: string := "This file link has expired"

  /** `findOne({ shareId, isActive: true })`; the `trim` setter of
      `shareId` applies to the query value as well. */
  function FindActive(shares: seq<FileShare>, shareId: string): (r: Option<nat>)
    ensures r.Some? ==> r.value < |shares| && shares[r.value].shareId == Trim(shareId) && shares[r.value].isActive
    ensures r.Some? ==> forall j :: 0 <= j < r.value ==> !(shares[j].shareId == Trim(shareId) && shares[j].isActive)
    ensures r.None? <==> forall j :: 0 <= j < |shares| ==> !(shares[j].shareId == Trim(shareId) && shares[j].isActive)
    decreases |shares|
  {
    if |shares| == 0 then None
    else if shares[0].shareId == Trim(shareId) && shares[0].isActive then Some(0)
    else
      var r := FindActive(shares[1..], shareId);
      if r.Some? then Some(r.value + 1) else None
  }

  /** `file.expiresAt && file.expiresAt < new Date()`. */
  predicate Expired(s: FileShare, now: int) {
    s.expiresAt.Some? && s.expiresAt.value < now
  }

  /** The share after one more download at `now`. */
  function Downloaded(s: FileShare, now: int): (d: FileShare)
    ensures d.downloadCount == s.downloadCount + 1 && d.lastDownloadedAt == Some(now)
    ensures d.(downloadCount := s.downloadCount, lastDownloadedAt := s.lastDownloadedAt) == s
  {
    s.(downloadCount := s.downloadCount + 1, lastDownloadedAt := Some(now))
  }

  function ViewOfShare(s: FileShare): (v: DownloadView)
    ensures v.fileName == s.fileName && v.url == s.url && v.downloadCount == s.downloadCount
    ensures v.fileSize == s.fileSize && v.fileType == s.fileType
    ensures v.uploaderName == s.uploaderName && v.createdAt == s.createdAt
  {
    DownloadView(s.fileName, s.fileSize, s.fileType, s.url, s.uploaderName, s.createdAt, s.downloadCount)
  }

  /** `getFileByShareId` at time `now`. */
  function GetFileByShareId(shareId: string, shares: seq<FileShare>, now: int)
    : (r: Handled<DownloadView, seq<FileShare>>)
    ensures r.calls == [] && |r.store| == |shares|
    ensures r.reply.status == 404 <==> FindActive(shares, shareId).None?
    ensures r.reply.status == 410 <==>
      FindActive(shares, shareId).Some? && Expired(shares[FindActive(shares, shareId).value], now)
    ensures r.reply.status != 200 ==> r.store == shares && r.reply.data.None?
    ensures r.reply.status == 200 ==>
      && var i := FindActive(shares, shareId).value;
      && r.store == shares[i := Downloaded(shares[i], now)]
      && r.reply.data == Some(ViewOfShare(r.store[i]))
    ensures r.reply.status in {200, 404, 410}
  {
    match FindActive(shares, shareId)
    case None => Handled(Fail(404, NotFoundOrDeleted), shares, [])
    case Some(i) =>
      if Expired(shares[i], now) then Handled(Fail(410, LinkExpired), shares, [])
      else
        var d := Downloaded(shares[i], now);
        Handled(Reply(200, "", Some(ViewOfShare(d))), shares[i := d], [])
  }

  /** The first active holder of the id: the share the lookup answers. */
  predicate FirstActive(shares: seq<FileShare>, shareId: string, i: nat) {
    && i < |shares| && shares[i].shareId == Trim(shareId) && shares[i].isActive
    && forall j :: 0 <= j < i ==> !(shares[j].shareId == Trim(shareId) && shares[j].isActive)
  }

  /** Downloading the first active holder of the id, before it expires,
      reports a count one more than before, records the time, and leaves
      every other share as it was. */
  lemma DownloadCountsOnce(shareId: string, shares: seq<FileShare>, now: int, i: nat)
    requires FirstActive(shares, shareId, i) && !Expired(shares[i], now)
    ensures var r := GetFileByShareId(shareId, shares, now);
      && r.reply.status == 200
      && r.reply.data.value.downloadCount == shares[i].downloadCount + 1
      && r.store[i].lastDownloadedAt == Some(now)
      && forall j :: 0 <= j < |shares| && j != i ==> r.store[j] == shares[j]
  {
    FindActiveFirst(shares, shareId, i);
  }

  /** Two downloads in a row count two: the second sees the first's
      increment. */
  lemma TwoDownloadsCountTwo(shareId: string, shares: seq<FileShare>, t1: int, t2: int, i: nat)
    requires FirstActive(shares, shareId, i) && !Expired(shares[i], t1) && !Expired(shares[i], t2)
    ensures var first := GetFileByShareId(shareId, shares, t1);
      var second := GetFileByShareId(shareId, first.store, t2);
      && second.reply.status == 200
      && second.reply.data.value.downloadCount == shares[i].downloadCount + 2
      && second.store[i].lastDownloadedAt == Some(t2)
  {
    FindActiveFirst(shares, shareId, i);
    FindActiveAfterUpdate(shares, shareId, i, Downloaded(shares[i], t1));
  }

  /** Changing only the counters of the share found leaves the lookup
      unchanged. */
  lemma FindActiveAfterUpdate(shares: seq<FileShare>, shareId: string, i: nat, d: FileShare)
    requires FindActive(shares, shareId) == Some(i)
    requires d.shareId == shares[i].shareId && d.isActive == shares[i].isActive
    ensures FindActive(shares[i := d], shareId) == Some(i)
  {
    var t := shares[i := d];
    forall j | 0 <= j < i ensures !(t[j].shareId == Trim(shareId) && t[j].isActive) {
      assert t[j] == shares[j];
    }
    FindActiveFirst(t, shareId, i);
  }

  /** The lookup finds the first active holder of the id. */
  lemma {:induction false} FindActiveFirst(shares: seq<FileShare>, shareId: string, i: nat)
    requires FirstActive(shares, shareId, i)
    ensures FindActive(shares, shareId) == Some(i)
    decreases i
  {
    if i > 0 {
      FindActiveFirst(shares[1..], shareId, i - 1);
    }
  }

  /** A share without an expiry date is never refused as expired. */
  lemma NoExpiryNeverGone(shareId: string, shares: seq<FileShare>, now: int)
    requires FindActive(shares, shareId).Some?
    requires shares[FindActive(shares, shareId).value].expiresAt.None?
    ensures GetFileByShareId(shareId, shares, now).reply.status == 200
  {
  }

  /** Downloads keep the share store invariant. */
  lemma DownloadKeepsValid(shareId: string, shares: seq<FileShare>, now: int)
    requires ValidShares(shares)
    ensures ValidShares(GetFileByShareId(shareId, shares, now).store)
  {
    var r := GetFileByShareId(shareId, shares, now).store;
    if r != shares {
      var i := FindActive(shares, shareId).value;
      forall a, b | 0 <= a < b < |r| ensures r[a].shareId != r[b].shareId {
        assert r[a].shareId == shares[a].shareId && r[b].shareId == shares[b].shareId;
      }
      forall a | 0 <= a < |r| ensures ValidShare(r[a]) {
        assert ValidShare(shares[a]);
      }
    }
  }

  /** A share id has no white space for the `trim` setter to remove. */
  lemma ShareIdTrims(id: string)
    requires IsShareId(id)
    ensures Trim(id) == id
  {
    assert IsLowerHex(id[0]) && IsLowerHex(id[|id| - 1]);
    TrimNoSpace(id);
  }

  /** Once its owner deleted it, a share's id finds nothing: the download
      page answers 404, under the unique index on share ids. */
  lemma DeletedShareNotFound(i: nat, userId: nat, shares: seq<FileShare>, now: int)
    requires ValidShares(shares) && OwnedBy(shares, i, userId)
    ensures var after := DeleteFile(ValidId(i), userId, shares, Deleted).store;
      GetFileByShareId(shares[i].shareId, after, now).reply.status == 404
  {
    var after := DeleteFile(ValidId(i), userId, shares, Deleted).store;
    assert ValidShare(shares[i]);
    ShareIdTrims(shares[i].shareId);
    forall j | 0 <= j < |after| ensures !(after[j].shareId == shares[i].shareId && after[j].isActive) {
      if j != i {
        assert after[j] == shares[j];
        assert j < i ==> shares[j].shareId != shares[i].shareId;
        assert j > i ==> shares[i].shareId != shares[j].shareId;
      }
    }
  }

  /** The link sent to the receiver leads to the file: the share id read
      back from the link finds the new share, whose first download reports
      the uploaded file with a count of one. */
  lemma UploadThenDownload(file: UploadedFile, receiverPhone: Option<string>, uploader: JwtAuth.ReqUser,
                           shares: seq<FileShare>, storage: StorageUpload, bytes: seq<Byte>,
                           frontendUrl: Option<string>, now: int, sms: Sms.ProviderOutcome, later: int)
    requires |bytes| == ShareIdBytes
    requires UploadFile(Some(file), receiverPhone, uploader, shares, storage, bytes, frontendUrl, now, sms).reply.Success()
    ensures var up := UploadFile(Some(file), receiverPhone, uploader, shares, storage, bytes, frontendUrl, now, sms);
      var link := up.reply.data.value.downloadLink;
      && ShareIdOfLink(BaseUrl(frontendUrl), link) == Some(NewShareId(bytes))
      && var down := GetFileByShareId(NewShareId(bytes), up.store, later);
      && down.reply.status == 200
      && down.reply.data.value.fileName == up.reply.data.value.fileName
      && down.reply.data.value.downloadCount == 1
      && storage.Stored? && down.reply.data.value.url == Trim(storage.url)
      && down.reply.data.value.fileType == Trim(file.mimeType)
      && down.reply.data.value.uploaderName == Trim(uploader.name)
      && down.reply.data.value.createdAt == now
  {
    var up := UploadFile(Some(file), receiverPhone, uploader, shares, storage, bytes, frontendUrl, now, sms);
    ShareLinkRoundTrip(BaseUrl(frontendUrl), NewShareId(bytes));
    DownloadOfUpload(file, receiverPhone, uploader, shares, storage, bytes, frontendUrl, now, sms, later);
  }

  /** The download half: the share an upload stored downloads with the
      uploaded file's fields. */
  lemma DownloadOfUpload(file: UploadedFile, receiverPhone: Option<string>, uploader: JwtAuth.ReqUser,
                         shares: seq<FileShare>, storage: StorageUpload, bytes: seq<Byte>,
                         frontendUrl: Option<string>, now: int, sms: Sms.ProviderOutcome, later: int)
    requires |bytes| == ShareIdBytes
    requires UploadFile(Some(file), receiverPhone, uploader, shares, storage, bytes, frontendUrl, now, sms).reply.Success()
    ensures var up := UploadFile(Some(file), receiverPhone, uploader, shares, storage, bytes, frontendUrl, now, sms);
      var down := GetFileByShareId(NewShareId(bytes), up.store, later);
      && down.reply.status == 200
      && down.reply.data == Some(ViewOfShare(Downloaded(up.store[|shares|], later)))
      && storage.Stored?
      && up.store[|shares|].fileName == up.reply.data.value.fileName
      && up.store[|shares|].downloadCount == 0
      && up.store[|shares|].url == Trim(storage.url)
      && up.store[|shares|].fileType == Trim(file.mimeType)
      && up.store[|shares|].uploaderName == Trim(uploader.name)
      && up.store[|shares|].createdAt == now
  {
    var up := UploadFile(Some(file), receiverPhone, uploader, shares, storage, bytes, frontendUrl, now, sms);
    UploadedShareIsFirst(file, receiverPhone, uploader, shares, storage, bytes, frontendUrl, now, sms);
    FirstDownloadView(up.store, NewShareId(bytes), |shares|, later);
  }

  /** Downloading the first active holder of an id that never expires
      answers 200 with the view of the share one download later. */
  lemma FirstDownloadView(shares: seq<FileShare>, shareId: string, i: nat, now: int)
    requires FirstActive(shares, shareId, i) && shares[i].expiresAt.None?
    ensures var r := GetFileByShareId(shareId, shares, now);
      r.reply.status == 200 && r.reply.data == Some(ViewOfShare(Downloaded(shares[i], now)))
  {
    FindActiveFirst(shares, shareId, i);
  }

  /** The share a successful upload stores is the new one the upload built,
      and it is the first active holder of its id. */
  lemma UploadedShareIsFirst(file: UploadedFile, receiverPhone: Option<string>, uploader: JwtAuth.ReqUser,
                             shares: seq<FileShare>, storage: StorageUpload, bytes: seq<Byte>,
                             frontendUrl: Option<string>, now: int, sms: Sms.ProviderOutcome)
    requires |bytes| == ShareIdBytes
    requires UploadFile(Some(file), receiverPhone, uploader, shares, storage, bytes, frontendUrl, now, sms).reply.Success()
    ensures storage.Stored?
    ensures var up := UploadFile(Some(file), receiverPhone, uploader, shares, storage, bytes, frontendUrl, now, sms);
      var phone := Phone.NormalizePhoneNumber(receiverPhone).value;
      && FirstActive(up.store, NewShareId(bytes), |shares|)
      && up.store[|shares|]
         == NewShare(NewShareId(bytes), Trimmed(ShareFields(file, uploader, phone, storage.publicId, storage.url)), now)
  {
    var up := UploadFile(Some(file), receiverPhone, uploader, shares, storage, bytes, frontendUrl, now, sms);
    var id := NewShareId(bytes);
    ShareIdTrims(id);
    UploadStoresCreatedShare(file, receiverPhone, uploader, shares, storage.publicId, storage.url, bytes,
                             frontendUrl, now, sms);
    assert !ShareIdTaken(shares, id);
    forall j | 0 <= j < |shares| ensures !(up.store[j].shareId == Trim(id) && up.store[j].isActive) {
      assert up.store[j] == up.store[..|shares|][j];
    }
  }
}
