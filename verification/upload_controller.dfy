/** The upload handlers (backend/src/controller/uploadController.js):
    uploading a file and sharing it with a phone number, listing one's
    shares, and deleting one. Blob storage and the SMS provider are not
    modelled: their answers are parameters, and the calls made are returned
    in order. */
module UploadController {
  import opened Wrappers
  import opened Strings
  import opened Http
  import opened Documents
  import opened Phone
  import opened Shares
  import opened Sms
  import opened FileHelpers
  import opened JwtAuth

  /** The file multer hands the handler. */
  datatype UploadedFile = UploadedFile(originalName: string, size: int, mimeType: string)

  /** What the storage upload did: stored the blob under `publicId` at
      `url`, or threw. */
  datatype StorageUpload = Stored(publicId: string, url: string) | UploadFailed(message: string)

  /** What the storage delete did. */
  datatype StorageDeletion = Deleted | DeleteFailed(message: string)

  // ---------------------------------------------------------------------
  // The configured front-end URL
  // ---------------------------------------------------------------------

  /** The base of the links the upload handler sends: the first
      comma-separated entry of `FRONTEND_URL`, trimmed, or the default when
      the variable is unset or empty. */
  function BaseUrl(frontendUrl: Option<string>): (r: string)
    ensures !Truthy(frontendUrl) ==> r == DefaultFrontendUrl
    ensures Truthy(frontendUrl) ==> r == Trim(Split(frontendUrl.value, ',')[0])
  {
    if Truthy(frontendUrl) then Trim(Split(frontendUrl.value, ',')[0]) else DefaultFrontendUrl
  }

  /** For a list of origins written as `FRONTEND_URL`, the link base is the
      first origin without its surrounding spaces. */
  lemma BaseUrlIsFirstOrigin(origins: seq<string>)
    requires |origins| >= 1 && forall i :: 0 <= i < |origins| ==> ',' !in origins[i]
    requires Join(origins, ',') != ""
    ensures BaseUrl(Some(Join(origins, ','))) == Trim(origins[0])
  {
    SplitJoin(origins, ',');
  }

  /** `${process.env.FRONTEND_URL}` in a template: the raw value, or the text
      "undefined" when the variable is unset. */
  function RawFrontendUrl(frontendUrl: Option<string>): (r: string)
    ensures frontendUrl.Some? ==> r == frontendUrl.value
    ensures frontendUrl.None? ==> r == "undefined"
  {
    match frontendUrl
    case None => "undefined"
    case Some(v) => v
  }

  /** The listing and the upload build their links the same way only when
      `FRONTEND_URL` is a single origin without surrounding spaces. */
  lemma LinksAgreeForSingleOrigin(origin: string)
    requires origin != "" && ',' !in origin && Trim(origin) == origin
    ensures BaseUrl(Some(origin)) == RawFrontendUrl(Some(origin))
  {
    SplitNoSeparator(origin, ',');
  }

  /** With `FRONTEND_URL` unset, the listing's links point at "undefined"
      while the upload's point at the default origin. */
  lemma UnsetUrlLinksDisagree(shareId: string)
    ensures GenerateShareLink(RawFrontendUrl(None), shareId) == "undefined/download/" + shareId
    ensures GenerateShareLink(BaseUrl(None), shareId) == "http://localhost:5173/download/" + shareId
  {
  }

  // ---------------------------------------------------------------------
  // POST /api/upload
  // ---------------------------------------------------------------------

  /** The `data` of a successful upload. */
  datatype UploadView = UploadView(
    id: nat,
    fileName: string,
    fileSize: int,
    fileType: string,
    shareId: string,
    downloadLink: string,
    receiverPhone: string,
    createdAt: int)

  const NoFile: string := "No file uploaded"
  const ReceiverRequired: string := "Receiver phone number is required"
  const ReceiverInvalid: string := "Please provide a valid receiver phone number (e.g., +1234567890)"
  const UploadFallback: string := "Failed to upload file"
  const Uploaded: string := "File uploaded successfully"

  /** The checks made before anything leaves the server: a file, and a
      receiver number that normalises. */
  predicate PassesUploadChecks(file: Option<UploadedFile>, receiverPhone: Option<string>) {
    file.Some? && Truthy(receiverPhone) && NormalizePhoneNumber(receiverPhone).Some?
  }

  /** The fields handed to `FileShare.create`. */
  function ShareFields(file: UploadedFile, uploader: ReqUser, phone: string, publicId: string, url: string)
    : (input: ShareInput)
    ensures input.receiverPhone == phone && input.uploadedBy == uploader.id
    ensures input.fileName == file.originalName && input.fileSize == file.size
    ensures input.fileType == file.mimeType && input.uploaderName == uploader.name
    ensures input.publicId == publicId && input.url == url
  {
    ShareInput(file.originalName, file.size, file.mimeType, publicId, url, uploader.id, uploader.name, phone)
  }

  /** `uploadFile`: `storage` is the blob store's answer, `bytes` the
      random bytes behind the new share id, `sms` the provider's answer to
      the notification. */
  function UploadFile(file: Option<UploadedFile>, receiverPhone: Option<string>, uploader: ReqUser,
                      shares: seq<FileShare>, storage: StorageUpload, bytes: seq<Byte>,
                      frontendUrl: Option<string>, now: int, sms: ProviderOutcome)
    : (r: Handled<UploadView, seq<FileShare>>)
    requires |bytes| == ShareIdBytes
    ensures !PassesUploadChecks(file, receiverPhone) ==>
      r.reply.status == 400 && r.store == shares && r.calls == []
    ensures PassesUploadChecks(file, receiverPhone) ==>
      |r.calls| >= 1 && r.calls[0] == StorageUpload(file.value.originalName)
    ensures !r.reply.Success() ==> r.store == shares
    ensures r.reply.Success() <==>
      (PassesUploadChecks(file, receiverPhone) && storage.Stored?
       && CreateShare(shares, ShareFields(file.value, uploader, NormalizePhoneNumber(receiverPhone).value,
                                          storage.publicId, storage.url), bytes, now).Saved?)
    ensures r.reply.Success() ==>
      && var phone := NormalizePhoneNumber(receiverPhone).value;
      && var link := GenerateShareLink(BaseUrl(frontendUrl), NewShareId(bytes));
      && r.reply.status == 201
      && |r.store| == |shares| + 1 && r.store[..|shares|] == shares
      && r.reply.data == Some(UploadView(|shares|, r.store[|shares|].fileName, file.value.size,
                                         r.store[|shares|].fileType, NewShareId(bytes), link,
                                         r.store[|shares|].receiverPhone, now))
      && r.calls == [StorageUpload(file.value.originalName),
                     SmsSend(phone, DownloadMessageBody(uploader.name, file.value.originalName, link))]
  {
    if file.None? then Handled(Fail(400, NoFile), shares, [])
    else if !Truthy(receiverPhone) then Handled(Fail(400, ReceiverRequired), shares, [])
    else
      match NormalizePhoneNumber(receiverPhone)
      case None => Handled(Fail(400, ReceiverInvalid), shares, [])
      case Some(phone) =>
        var upload := StorageUpload(file.value.originalName);
        match storage
        case UploadFailed(message) => Handled(Fail(500, OrElse(message, UploadFallback)), shares, [upload])
        case Stored(publicId, url) =>
          match CreateShare(shares, ShareFields(file.value, uploader, phone, publicId, url), bytes, now)
          case Failed(f) => Handled(Fail(500, OrElse(f.Message(), UploadFallback)), shares, [upload])
          case Saved(stored) =>
            var share := stored[|shares|];
            assert share.shareId == NewShareId(bytes) && share.fileSize == file.value.size && share.createdAt == now;
            var link := GenerateShareLink(BaseUrl(frontendUrl), share.shareId);
            var (notify, _) := SendDownloadLink(phone, uploader.name, file.value.originalName, link, sms);
            var view := UploadView(|shares|, share.fileName, share.fileSize, share.fileType, share.shareId, link,
                                   share.receiverPhone, share.createdAt);
            Handled(Reply(201, Uploaded, Some(view)), stored, [upload, notify])
  }

  /** The share a successful upload stores is exactly the one
      `FileShare.create` builds from the file, the uploader and the
      normalised number. */
  lemma UploadStoresCreatedShare(file: UploadedFile, receiverPhone: Option<string>, uploader: ReqUser,
                                 shares: seq<FileShare>, publicId: string, url: string, bytes: seq<Byte>,
                                 frontendUrl: Option<string>, now: int, sms: ProviderOutcome)
    requires |bytes| == ShareIdBytes && PassesUploadChecks(Some(file), receiverPhone)
    requires CreateShare(shares, ShareFields(file, uploader, NormalizePhoneNumber(receiverPhone).value, publicId, url),
                         bytes, now).Saved?
    ensures UploadFile(Some(file), receiverPhone, uploader, shares, Stored(publicId, url), bytes, frontendUrl, now, sms).store
         == CreateShare(shares, ShareFields(file, uploader, NormalizePhoneNumber(receiverPhone).value, publicId, url),
                        bytes, now).value
  {
  }

  /** The notification is best effort: whatever the SMS provider answers,
      the upload's reply, store and calls are the same. */
  lemma UploadIgnoresSmsOutcome(file: Option<UploadedFile>, receiverPhone: Option<string>, uploader: ReqUser,
                                shares: seq<FileShare>, storage: StorageUpload, bytes: seq<Byte>,
                                frontendUrl: Option<string>, now: int, a: ProviderOutcome, b: ProviderOutcome)
    requires |bytes| == ShareIdBytes
    ensures UploadFile(file, receiverPhone, uploader, shares, storage, bytes, frontendUrl, now, a)
         == UploadFile(file, receiverPhone, uploader, shares, storage, bytes, frontendUrl, now, b)
  {
  }

  /** A storage failure is a 500 and no share is created. */
  lemma StorageFailureCreatesNothing(file: UploadedFile, receiverPhone: string, uploader: ReqUser,
                                     shares: seq<FileShare>, message: string, bytes: seq<Byte>,
                                     frontendUrl: Option<string>, now: int, sms: ProviderOutcome)
    requires |bytes| == ShareIdBytes
    requires PassesUploadChecks(Some(file), Some(receiverPhone))
    ensures var r := UploadFile(Some(file), Some(receiverPhone), uploader, shares, UploadFailed(message), bytes,
                                frontendUrl, now, sms);
      r.reply.status == 500 && r.store == shares && r.calls == [StorageUpload(file.originalName)]
  {
  }

  /** A number the normaliser accepts but the schema refuses (say
      "+0123456789") passes every check of the handler, is uploaded to
      storage, and only then makes the share's creation fail: the blob is
      left behind with no share pointing to it. */
  lemma NormalizedButRefusedOrphansBlob(file: UploadedFile, receiverPhone: string, uploader: ReqUser,
                                        shares: seq<FileShare>, publicId: string, url: string, bytes: seq<Byte>,
                                        frontendUrl: Option<string>, now: int, sms: ProviderOutcome)
    requires |bytes| == ShareIdBytes
    requires PassesUploadChecks(Some(file), Some(receiverPhone))
    requires !MatchesPhonePattern(NormalizePhoneNumber(Some(receiverPhone)).value)
    ensures var r := UploadFile(Some(file), Some(receiverPhone), uploader, shares, Stored(publicId, url), bytes,
                                frontendUrl, now, sms);
      r.reply.status == 500 && r.store == shares && r.calls == [StorageUpload(file.originalName)]
  {
    var phone := NormalizePhoneNumber(Some(receiverPhone)).value;
    DialStringTrims(phone);
    BadReceiverRefused(shares, ShareFields(file, uploader, phone, publicId, url), bytes, now);
  }

  /** A normalised number has no white space to trim. */
  lemma DialStringTrims(phone: string)
    requires |phone| > 0 && AllDialChars(phone)
    ensures Trim(phone) == phone
  {
    assert IsDialChar(phone[0]) && IsDialChar(phone[|phone| - 1]);
    TrimNoSpace(phone);
  }

  /** The share stored holds the normalised receiver number, not the one
      typed in. */
  lemma UploadStoresNormalizedPhone(file: Option<UploadedFile>, receiverPhone: Option<string>, uploader: ReqUser,
                                    shares: seq<FileShare>, storage: StorageUpload, bytes: seq<Byte>,
                                    frontendUrl: Option<string>, now: int, sms: ProviderOutcome)
    requires |bytes| == ShareIdBytes
    requires UploadFile(file, receiverPhone, uploader, shares, storage, bytes, frontendUrl, now, sms).reply.Success()
    ensures var r := UploadFile(file, receiverPhone, uploader, shares, storage, bytes, frontendUrl, now, sms);
      r.store[|shares|].receiverPhone == NormalizePhoneNumber(receiverPhone).value
      && r.store[|shares|].isActive && r.store[|shares|].downloadCount == 0 && r.store[|shares|].expiresAt.None?
  {
    DialStringTrims(NormalizePhoneNumber(receiverPhone).value);
  }

  /** Uploading keeps the share store invariant. */
  lemma UploadKeepsValid(file: Option<UploadedFile>, receiverPhone: Option<string>, uploader: ReqUser,
                         shares: seq<FileShare>, storage: StorageUpload, bytes: seq<Byte>,
                         frontendUrl: Option<string>, now: int, sms: ProviderOutcome)
    requires |bytes| == ShareIdBytes && ValidShares(shares)
    ensures ValidShares(UploadFile(file, receiverPhone, uploader, shares, storage, bytes, frontendUrl, now, sms).store)
  {
    var r := UploadFile(file, receiverPhone, uploader, shares, storage, bytes, frontendUrl, now, sms);
    if r.reply.Success() {
      var phone := NormalizePhoneNumber(receiverPhone).value;
      CreateShareKeepsValid(shares, ShareFields(file.value, uploader, phone, storage.publicId, storage.url), bytes, now);
    }
  }

  // ---------------------------------------------------------------------
  // GET /api/upload
  // ---------------------------------------------------------------------

  /** A share the listing shows to `userId`. */
  predicate Listed(s: FileShare, userId: nat) {
    s.uploadedBy == userId && s.isActive
  }

  predicate InStore(ids: seq<nat>, shares: seq<FileShare>) {
    forall k :: 0 <= k < |ids| ==> ids[k] < |shares|
  }

  /** `find({ uploadedBy, isActive: true })` over the first `n` shares, in
      store order. */
  function Owned(shares: seq<FileShare>, userId: nat, n: nat): (ids: seq<nat>)
    requires n <= |shares|
    ensures InStore(ids, shares)
    ensures forall k :: 0 <= k < |ids| ==> ids[k] < n && Listed(shares[ids[k]], userId)
    ensures forall i :: 0 <= i < n && Listed(shares[i], userId) ==> i in ids
    ensures forall a, b :: 0 <= a < b < |ids| ==> ids[a] < ids[b]
  {
    if n == 0 then []
    else
      var ids := Owned(shares, userId, n - 1);
      if Listed(shares[n - 1], userId) then ids + [n - 1] else ids
  }

  /** `.sort({ createdAt: -1 })`: newest first. */
  predicate NewestFirst(ids: seq<nat>, shares: seq<FileShare>)
    requires InStore(ids, shares)
  {
    forall a, b :: 0 <= a < b < |ids| ==> shares[ids[a]].createdAt >= shares[ids[b]].createdAt
  }

  /** Puts `i` into a newest-first list, after the shares no older than it. */
  function Insert(i: nat, ids: seq<nat>, shares: seq<FileShare>): (r: seq<nat>)
    requires i < |shares| && InStore(ids, shares) && NewestFirst(ids, shares)
    ensures InStore(r, shares) && NewestFirst(r, shares)
    ensures multiset(r) == multiset(ids) + multiset{i}
    decreases |ids|
  {
    if |ids| == 0 then [i]
    else if shares[ids[0]].createdAt < shares[i].createdAt then [i] + ids
    else
      var rest := Insert(i, ids[1..], shares);
      assert ids == [ids[0]] + ids[1..];
      HeadNoOlder(i, ids, rest, shares);
      [ids[0]] + rest
  }

  /** The head of a newest-first list is no older than any share of its
      tail, nor than `i` when `i` is no newer than it. */
  lemma HeadNoOlder(i: nat, ids: seq<nat>, rest: seq<nat>, shares: seq<FileShare>)
    requires i < |shares| && |ids| > 0 && InStore(ids, shares) && NewestFirst(ids, shares)
    requires shares[ids[0]].createdAt >= shares[i].createdAt
    requires InStore(rest, shares) && multiset(rest) == multiset(ids[1..]) + multiset{i}
    ensures forall b :: 0 <= b < |rest| ==> shares[ids[0]].createdAt >= shares[rest[b]].createdAt
  {
    forall b | 0 <= b < |rest| ensures shares[ids[0]].createdAt >= shares[rest[b]].createdAt {
      assert rest[b] in multiset(rest);
      if rest[b] != i {
        assert rest[b] in multiset(ids[1..]);
        var c :| 0 <= c < |ids[1..]| && ids[1..][c] == rest[b];
        assert ids[c + 1] == rest[b];
      }
    }
  }

  /** Insertion sort, newest first. */
  function SortNewestFirst(ids: seq<nat>, shares: seq<FileShare>): (r: seq<nat>)
    requires InStore(ids, shares)
    ensures InStore(r, shares) && NewestFirst(r, shares)
    ensures multiset(r) == multiset(ids)
  {
    if |ids| == 0 then []
    else
      assert ids == [ids[0]] + ids[1..];
      Insert(ids[0], SortNewestFirst(ids[1..], shares), shares)
  }

  /** Among shares created at the same time, the later one in the store is
      listed first. */
  lemma SortTieLaterFirst(a: FileShare, b: FileShare)
    requires a.createdAt == b.createdAt
    ensures SortNewestFirst([0, 1], [a, b]) == [1, 0]
  {
    assert [0, 1][1..] == [1];
    assert [1][1..] == [];
  }

  /** One entry of the listing. */
  datatype FileView = FileView(
    id: nat,
    fileName: string,
    fileSize: int,
    fileType: string,
    shareId: string,
    downloadLink: string,
    receiverPhone: string,
    downloadCount: int,
    createdAt: int)

  function ViewOf(shares: seq<FileShare>, i: nat, frontendUrl: Option<string>): (v: FileView)
    requires i < |shares|
    ensures v.id == i && v.shareId == shares[i].shareId && v.downloadCount == shares[i].downloadCount
    ensures v.downloadLink == GenerateShareLink(RawFrontendUrl(frontendUrl), shares[i].shareId)
    ensures v.fileName == shares[i].fileName && v.fileSize == shares[i].fileSize && v.fileType == shares[i].fileType
    ensures v.receiverPhone == shares[i].receiverPhone && v.createdAt == shares[i].createdAt
  {
    var s := shares[i];
    FileView(i, s.fileName, s.fileSize, s.fileType, s.shareId,
             GenerateShareLink(RawFrontendUrl(frontendUrl), s.shareId), s.receiverPhone, s.downloadCount,
             s.createdAt)
  }

  /** The positions of `userId`'s active shares, each once, newest first. */
  function ListedIds(userId: nat, shares: seq<FileShare>): (ids: seq<nat>)
    ensures InStore(ids, shares) && NewestFirst(ids, shares)
    ensures forall k :: 0 <= k < |ids| ==> Listed(shares[ids[k]], userId)
    ensures forall i :: 0 <= i < |shares| && Listed(shares[i], userId) ==> i in ids
    ensures forall a, b :: 0 <= a < b < |ids| ==> ids[a] != ids[b]
  {
    var owned := Owned(shares, userId, |shares|);
    var ids := SortNewestFirst(owned, shares);
    SortedKeepsListing(userId, shares, owned, ids);
    ids
  }

  /** A reordering of the owned positions lists the same shares, still
      each once. */
  lemma SortedKeepsListing(userId: nat, shares: seq<FileShare>, owned: seq<nat>, ids: seq<nat>)
    requires forall k :: 0 <= k < |owned| ==> owned[k] < |shares| && Listed(shares[owned[k]], userId)
    requires forall i :: 0 <= i < |shares| && Listed(shares[i], userId) ==> i in owned
    requires forall a, b :: 0 <= a < b < |owned| ==> owned[a] < owned[b]
    requires multiset(ids) == multiset(owned)
    ensures forall k :: 0 <= k < |ids| ==> ids[k] < |shares| && Listed(shares[ids[k]], userId)
    ensures forall i :: 0 <= i < |shares| && Listed(shares[i], userId) ==> i in ids
    ensures forall a, b :: 0 <= a < b < |ids| ==> ids[a] != ids[b]
  {
    forall k | 0 <= k < |ids| ensures ids[k] < |shares| && Listed(shares[ids[k]], userId) {
      assert ids[k] in multiset(owned);
      var x :| 0 <= x < |owned| && owned[x] == ids[k];
    }
    forall i | 0 <= i < |shares| && Listed(shares[i], userId) ensures i in ids {
      assert i in multiset(owned);
      assert i in multiset(ids);
    }
    forall a, b | 0 <= a < b < |ids| ensures ids[a] != ids[b] {
      DistinctAfterSort(owned, ids, a, b);
    }
  }

  /** The listing entries of the shares at `ids`, in that order. */
  function Views(ids: seq<nat>, shares: seq<FileShare>, frontendUrl: Option<string>): (views: seq<FileView>)
    requires InStore(ids, shares)
    ensures |views| == |ids|
    ensures forall k :: 0 <= k < |ids| ==> views[k] == ViewOf(shares, ids[k], frontendUrl)
  {
    seq(|ids|, k requires 0 <= k < |ids| => ViewOf(shares, ids[k], frontendUrl))
  }

  /** `getUserFiles` for the authenticated `userId`: exactly that user's
      active shares, each once, newest first. */
  function GetUserFiles(userId: nat, shares: seq<FileShare>, frontendUrl: Option<string>): (r: Reply<seq<FileView>>)
    ensures r.status == 200 && r.data.Some?
    ensures forall k :: 0 <= k < |r.data.value| ==> r.data.value[k].id < |shares|
    ensures var views := r.data.value;
      forall k :: 0 <= k < |views| ==>
        Listed(shares[views[k].id], userId) && views[k] == ViewOf(shares, views[k].id, frontendUrl)
    ensures var views := r.data.value;
      forall i :: 0 <= i < |shares| && Listed(shares[i], userId) ==>
        exists k :: 0 <= k < |views| && views[k].id == i
    ensures var views := r.data.value;
      forall a, b :: 0 <= a < b < |views| ==>
        views[a].id != views[b].id && shares[views[a].id].createdAt >= shares[views[b].id].createdAt
  {
    var ids := ListedIds(userId, shares);
    var views := Views(ids, shares, frontendUrl);
    ViewsOfListing(userId, shares, frontendUrl, ids, views);
    Reply(200, "", Some(views))
  }

  /** The views of the listed ids carry the listing's properties over to
      the ids the views report. */
  lemma ViewsOfListing(userId: nat, shares: seq<FileShare>, frontendUrl: Option<string>,
                       ids: seq<nat>, views: seq<FileView>)
    requires ids == ListedIds(userId, shares) && views == Views(ids, shares, frontendUrl)
    ensures forall k :: 0 <= k < |views| ==> views[k].id == ids[k] < |shares|
    ensures forall k :: 0 <= k < |views| ==>
      Listed(shares[views[k].id], userId) && views[k] == ViewOf(shares, views[k].id, frontendUrl)
    ensures forall i :: 0 <= i < |shares| && Listed(shares[i], userId) ==>
      exists k :: 0 <= k < |views| && views[k].id == i
    ensures forall a, b :: 0 <= a < b < |views| ==>
      views[a].id != views[b].id && shares[views[a].id].createdAt >= shares[views[b].id].createdAt
  {
    forall k | 0 <= k < |views| ensures views[k].id == ids[k] < |shares| {
      assert views[k] == ViewOf(shares, ids[k], frontendUrl);
    }
    forall i | 0 <= i < |shares| && Listed(shares[i], userId)
      ensures exists k :: 0 <= k < |views| && views[k].id == i
    {
      var k :| 0 <= k < |ids| && ids[k] == i;
      assert views[k].id == i;
    }
  }

  /** Sorting a list without repeats gives a list without repeats. */
  lemma DistinctAfterSort(owned: seq<nat>, ids: seq<nat>, a: nat, b: nat)
    requires forall x, y :: 0 <= x < y < |owned| ==> owned[x] < owned[y]
    requires multiset(ids) == multiset(owned)
    requires a < b < |ids|
    ensures ids[a] != ids[b]
  {
    if ids[a] == ids[b] {
      CountedTwice(ids, a, b);
      assert ids[a] in multiset(owned);
      var x :| 0 <= x < |owned| && owned[x] == ids[a];
      CountedOnce(owned, x);
      assert false;
    }
  }

  /** A value at two positions occurs at least twice. */
  lemma CountedTwice(ids: seq<nat>, a: nat, b: nat)
    requires a < b < |ids| && ids[a] == ids[b]
    ensures multiset(ids)[ids[a]] >= 2
  {
    var v := ids[a];
    assert ids == ids[..a] + [v] + ids[a + 1..b] + [v] + ids[b + 1..];
    assert multiset(ids) == multiset(ids[..a]) + multiset{v} + multiset(ids[a + 1..b]) + multiset{v} + multiset(ids[b + 1..]);
  }

  /** In a strictly increasing list every value occurs once. */
  lemma CountedOnce(owned: seq<nat>, x: nat)
    requires forall i, j :: 0 <= i < j < |owned| ==> owned[i] < owned[j]
    requires x < |owned|
    ensures multiset(owned)[owned[x]] == 1
  {
    var v := owned[x];
    assert owned == owned[..x] + [v] + owned[x + 1..];
    assert v !in owned[..x] && v !in owned[x + 1..] by {
      forall y | 0 <= y < |owned| && y != x ensures owned[y] != v {
        if y < x { assert owned[y] < owned[x]; } else { assert owned[x] < owned[y]; }
      }
    }
    assert multiset(owned) == multiset(owned[..x]) + multiset{v} + multiset(owned[x + 1..]);
  }

  // ---------------------------------------------------------------------
  // DELETE /api/upload/:fileId
  // ---------------------------------------------------------------------

  const FileNotFound: string := "File not found"
  const FileDeleted: string := "File deleted successfully"
  const DeleteFallback: string := "Failed to delete file"

  /** `findOne({ _id: fileId, uploadedBy })`: the share is the caller's;
      whether it is still active is not asked. */
  predicate OwnedBy(shares: seq<FileShare>, i: nat, userId: nat) {
    i < |shares| && shares[i].uploadedBy == userId
  }

  /** `deleteFile`: the blob is deleted first, then the share is marked
      inactive; the share itself is never removed. An id the store cannot
      cast throws, which the handler reports as a 500. */
  function DeleteFile(fileId: IdParam, userId: nat, shares: seq<FileShare>, storage: StorageDeletion)
    : (r: Handled<(), seq<FileShare>>)
    ensures fileId.MalformedId? ==> r == Handled(Fail(500, DeleteFallback), shares, [])
    ensures fileId.ValidId? && !OwnedBy(shares, fileId.id, userId) ==> r == Handled(Fail(404, FileNotFound), shares, [])
    ensures fileId.ValidId? && OwnedBy(shares, fileId.id, userId) ==>
      && r.calls == [StorageDelete(shares[fileId.id].publicId)]
      && (r.reply.status == 200 <==> storage.Deleted?)
      && (storage.Deleted? ==> r.store == shares[fileId.id := shares[fileId.id].(isActive := false)])
      && (storage.DeleteFailed? ==> r.store == shares && r.reply == Fail(500, DeleteFallback))
    ensures |r.store| == |shares|
  {
    match fileId
    case MalformedId => Handled(Fail(500, DeleteFallback), shares, [])
    case ValidId(i) =>
      if !OwnedBy(shares, i, userId) then Handled(Fail(404, FileNotFound), shares, [])
      else
        var call := StorageDelete(shares[i].publicId);
        match storage
        case DeleteFailed(_) => Handled(Fail(500, DeleteFallback), shares, [call])
        case Deleted => Handled(Reply(200, FileDeleted, None), shares[i := shares[i].(isActive := false)], [call])
  }

  /** After a successful delete the share no longer appears in its
      owner's listing, and every other share is exactly as it was. */
  lemma DeletedNotListed(i: nat, userId: nat, shares: seq<FileShare>, frontendUrl: Option<string>)
    requires OwnedBy(shares, i, userId)
    ensures var after := DeleteFile(ValidId(i), userId, shares, Deleted).store;
      && (forall j :: 0 <= j < |shares| && j != i ==> after[j] == shares[j])
      && forall k :: 0 <= k < |GetUserFiles(userId, after, frontendUrl).data.value| ==>
           GetUserFiles(userId, after, frontendUrl).data.value[k].id != i
  {
  }

  /** Deleting an already deleted share of one's own succeeds again and
      asks storage to delete the blob a second time. */
  lemma DeleteTwiceCallsStorageTwice(i: nat, userId: nat, shares: seq<FileShare>)
    requires OwnedBy(shares, i, userId)
    ensures var once := DeleteFile(ValidId(i), userId, shares, Deleted);
      var twice := DeleteFile(ValidId(i), userId, once.store, Deleted);
      twice.reply.status == 200 && twice.store == once.store && twice.calls == once.calls
  {
    var once := DeleteFile(ValidId(i), userId, shares, Deleted).store;
    assert once[i := once[i].(isActive := false)] == once;
  }

  /** Deleting keeps the share store invariant. */
  lemma DeleteKeepsValid(fileId: IdParam, userId: nat, shares: seq<FileShare>, storage: StorageDeletion)
    requires ValidShares(shares)
    ensures ValidShares(DeleteFile(fileId, userId, shares, storage).store)
  {
    var r := DeleteFile(fileId, userId, shares, storage).store;
    if r != shares {
      var i := fileId.id;
      forall a, b | 0 <= a < b < |r| ensures r[a].shareId != r[b].shareId {
        assert r[a].shareId == shares[a].shareId && r[b].shareId == shares[b].shareId;
      }
      forall a | 0 <= a < |r| ensures ValidShare(r[a]) {
        assert ValidShare(shares[a]);
      }
    }
  }
}
