/** File shares (backend/src/models/fileShare.js): the record, its
    defaults, the field validators and the unique share id. A share's id is
    its position in the store; shares are only ever soft-deleted, so the
    store never shrinks. */
module Shares {
  import opened Wrappers
  import opened Strings
  import opened Documents
  import opened Phone

  /** A share document. Times are milliseconds since the epoch. */
  datatype FileShare = FileShare(
    shareId: string,
    fileName: string,
    fileSize: int,
    fileType: string,
    publicId: string,
    url: string,
    uploadedBy: nat,
    uploaderName: string,
    receiverPhone: string,
    downloadCount: int,
    lastDownloadedAt: Option<int>,
    expiresAt: Option<int>,
    isActive: bool,
    createdAt: int)

  /** The fields `FileShare.create` is given; the rest come from defaults. */
  datatype ShareInput = ShareInput(
    fileName: string,
    fileSize: int,
    fileType: string,
    publicId: string,
    url: string,
    uploadedBy: nat,
    uploaderName: string,
    receiverPhone: string)

  // ---------------------------------------------------------------------
  // shareId: crypto.randomBytes(16).toString("hex")
  // ---------------------------------------------------------------------

  const ShareIdBytes: nat := 16

  /** The default share id drawn from `bytes`, the random bytes. */
  function NewShareId(bytes: seq<Byte>): (id: string)
    requires |bytes| == ShareIdBytes
    ensures |id| == 32 && forall i :: 0 <= i < |id| ==> IsLowerHex(id[i])
  {
    Hex(bytes)
  }

  /** The id gives back the bytes it was drawn from, so different draws give
      different ids. */
  lemma NewShareIdInjective(a: seq<Byte>, b: seq<Byte>)
    requires |a| == ShareIdBytes && |b| == ShareIdBytes
    requires NewShareId(a) == NewShareId(b)
    ensures a == b
  {
    HexRoundTrip(a);
    HexRoundTrip(b);
  }

  /** The shape every default share id has. */
  predicate IsShareId(s: string) {
    |s| == 32 && forall i :: 0 <= i < |s| ==> IsLowerHex(s[i])
  }

  // ---------------------------------------------------------------------
  // Validation
  // ---------------------------------------------------------------------

  /** The setters applied to the given fields: every string is trimmed. */
  function Trimmed(input: ShareInput): (t: ShareInput)
    ensures t.fileSize == input.fileSize && t.uploadedBy == input.uploadedBy
    ensures t.receiverPhone == Trim(input.receiverPhone) && t.fileName == Trim(input.fileName)
    ensures t.fileType == Trim(input.fileType) && t.publicId == Trim(input.publicId)
    ensures t.url == Trim(input.url) && t.uploaderName == Trim(input.uploaderName)
  {
    ShareInput(Trim(input.fileName), input.fileSize, Trim(input.fileType), Trim(input.publicId), Trim(input.url),
               input.uploadedBy, Trim(input.uploaderName), Trim(input.receiverPhone))
  }

  /** The field errors of new (already trimmed) fields, in schema order.
      `fileSize` and `uploadedBy` are always given, and the defaults pass
      their own validators. */
  function ShareErrors(t: ShareInput): (errs: seq<FieldError>)
    ensures errs == [] <==> ValidInput(t)
  {
    Required("fileName", Some(t.fileName), "File name is required")
    + Required("fileType", Some(t.fileType), "File type is required")
    + Required("publicId", Some(t.publicId), "Cloudinary public ID is required")
    + Required("url", Some(t.url), "Cloudinary URL is required")
    + Required("uploaderName", Some(t.uploaderName), "Uploader name is required")
    + Required("receiverPhone", Some(t.receiverPhone), "Receiver phone number is required")
    + Match("receiverPhone", Some(t.receiverPhone), MatchesPhonePattern(t.receiverPhone),
            "Please fill a valid phone number")
  }

  /** The validators field by field: the required strings are non-empty and
      the receiver's number matches the phone pattern. */
  predicate ValidInput(t: ShareInput) {
    t.fileName != "" && t.fileType != "" && t.publicId != "" && t.url != ""
    && t.uploaderName != "" && MatchesPhonePattern(t.receiverPhone)
  }

  /** Every stored share: valid fields, a well-formed id, a counter that
      never went below zero. */
  predicate ValidShare(s: FileShare) {
    ValidInput(ShareInput(s.fileName, s.fileSize, s.fileType, s.publicId, s.url, s.uploadedBy,
                          s.uploaderName, s.receiverPhone))
    && IsShareId(s.shareId) && s.downloadCount >= 0
  }

  /** The store invariant: valid shares with pairwise different ids (the
      unique index on `shareId`). */
  predicate ValidShares(store: seq<FileShare>) {
    (forall i :: 0 <= i < |store| ==> ValidShare(store[i]))
    && (forall i, j :: 0 <= i < j < |store| ==> store[i].shareId != store[j].shareId)
  }

  predicate ShareIdTaken(store: seq<FileShare>, shareId: string) {
    exists i :: 0 <= i < |store| && store[i].shareId == shareId
  }

  // ---------------------------------------------------------------------
  // FileShare.create
  // ---------------------------------------------------------------------

  /** `FileShare.create(input)` at time `now`, with the random bytes behind
      the default share id. */
  function CreateShare(store: seq<FileShare>, input: ShareInput, bytes: seq<Byte>, now: int)
    : (r: Write<seq<FileShare>>)
    requires |bytes| == ShareIdBytes
    ensures r.Saved? <==> ValidInput(Trimmed(input)) && !ShareIdTaken(store, NewShareId(bytes))
    ensures r.Failed? && !ValidInput(Trimmed(input)) ==> r.failure.ValidationError?
    ensures r.Failed? && ValidInput(Trimmed(input)) ==> r.failure == DuplicateKey("shareId_1")
    ensures r.Saved? ==> |r.value| == |store| + 1 && r.value[..|store|] == store
    ensures r.Saved? ==> r.value[|store|] == NewShare(NewShareId(bytes), Trimmed(input), now)
    ensures r.Saved? ==> ValidShare(r.value[|store|]) && !ShareIdTaken(store, r.value[|store|].shareId)
  {
    var t := Trimmed(input);
    if !ValidInput(t) then Failed(ValidationError("FileShare", ShareErrors(t)))
    else if ShareIdTaken(store, NewShareId(bytes)) then Failed(DuplicateKey("shareId_1"))
    else
      Saved(Appended(store, NewShare(NewShareId(bytes), t, now)))
  }

  function Appended(store: seq<FileShare>, s: FileShare): (r: seq<FileShare>)
    ensures |r| == |store| + 1 && r[..|store|] == store && r[|store|] == s
  {
    assert (store + [s])[..|store|] == store;
    store + [s]
  }

  /** The document `create` inserts: the given fields, a fresh counter, no
      expiry, active, stamped `now`. */
  function NewShare(shareId: string, t: ShareInput, now: int): (s: FileShare)
    ensures s.shareId == shareId && s.receiverPhone == t.receiverPhone && s.fileName == t.fileName
    ensures s.fileSize == t.fileSize && s.uploadedBy == t.uploadedBy
    ensures s.fileType == t.fileType && s.publicId == t.publicId && s.url == t.url
    ensures s.uploaderName == t.uploaderName
    ensures s.downloadCount == 0 && s.isActive && s.expiresAt.None? && s.lastDownloadedAt.None?
    ensures s.createdAt == now
    ensures ValidInput(t) && IsShareId(shareId) ==> ValidShare(s)
  {
    FileShare(shareId, t.fileName, t.fileSize, t.fileType, t.publicId, t.url,
              t.uploadedBy, t.uploaderName, t.receiverPhone, 0, None, None, true, now)
  }

  /** Creating a share keeps the store invariant. */
  lemma CreateShareKeepsValid(store: seq<FileShare>, input: ShareInput, bytes: seq<Byte>, now: int)
    requires |bytes| == ShareIdBytes && ValidShares(store)
    requires ValidInput(Trimmed(input)) && !ShareIdTaken(store, NewShareId(bytes))
    ensures ValidShares(CreateShare(store, input, bytes, now).value)
  {
    var s := CreateShare(store, input, bytes, now).value;
    assert s == store + [s[|store|]];
    AppendKeepsValid(store, s[|store|]);
  }

  /** Adding a valid share under an unused id keeps the store invariant. */
  lemma AppendKeepsValid(store: seq<FileShare>, s: FileShare)
    requires ValidShares(store) && ValidShare(s) && !ShareIdTaken(store, s.shareId)
    ensures ValidShares(store + [s])
  {
    var t := store + [s];
    forall i, j | 0 <= i < j < |t| ensures t[i].shareId != t[j].shareId {
      assert t[i] == store[i];
      if j < |store| { assert t[j] == store[j]; }
    }
  }

  /** A receiver number that the phone pattern refuses is never stored,
      whatever else the share holds. */
  lemma BadReceiverRefused(store: seq<FileShare>, input: ShareInput, bytes: seq<Byte>, now: int)
    requires |bytes| == ShareIdBytes
    requires !MatchesPhonePattern(Trim(input.receiverPhone))
    ensures CreateShare(store, input, bytes, now).Failed?
    ensures CreateShare(store, input, bytes, now).failure.ValidationError?
  {
  }
}
