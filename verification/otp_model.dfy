/** One-time codes (backend/src/models/otp.js): the record, its defaults and
    validators, the store lookup verify-otp performs, the per-record checks
    it applies, and the TTL index that may drop expired records at any time.
    The store is the collection's records in insertion order. */
module Otps {
  import opened Wrappers
  import opened Strings
  import opened Documents
  import opened Phone

  /** `5 * 60 * 1000`: a code lives five minutes. */
  const OtpLifetimeMs: int := 5 * 60 * 1000
  /** Wrong guesses allowed before a code is locked. */
  const MaxAttempts: int := 3

  /** An OTP document; times are milliseconds since the epoch. */
  datatype OtpRecord = OtpRecord(
    phoneNumber: string,
    otp: string,
    createdAt: int,
    expiresAt: int,
    isVerified: bool,
    attempts: int)

  /** What every stored record satisfies: it passed validation, kept its
      default lifetime, and has not been guessed at more than three times. */
  predicate ValidRecord(r: OtpRecord) {
    MatchesPhonePattern(r.phoneNumber) && r.otp != ""
    && r.expiresAt == r.createdAt + OtpLifetimeMs
    && 0 <= r.attempts <= MaxAttempts
  }

  predicate ValidStore(store: seq<OtpRecord>) {
    forall i :: 0 <= i < |store| ==> ValidRecord(store[i])
  }

  // ---------------------------------------------------------------------
  // OTP.create
  // ---------------------------------------------------------------------

  /** The field errors of a new document, after the `trim` setters. */
  function OtpErrors(phoneNumber: Option<string>, otp: Option<string>): (errs: seq<FieldError>)
    ensures errs == [] <==>
      (phoneNumber.Some? && MatchesPhonePattern(Trim(phoneNumber.value)) && otp.Some? && Trim(otp.value) != "")
  {
    var phone := TrimField(phoneNumber);
    var code := TrimField(otp);
    Required("phoneNumber", phone, "Phone number is required")
    + Match("phoneNumber", phone, phone.Some? && MatchesPhonePattern(phone.value), "Please fill a valid phone number")
    + Required("otp", code, "OTP code is required")
  }

  /** `OTP.create({ phoneNumber, otp })` at time `now`: the defaults fill in
      the lifetime, `isVerified = false` and `attempts = 0`. */
  function CreateOtp(store: seq<OtpRecord>, phoneNumber: Option<string>, otp: Option<string>, now: int)
    : (r: Write<seq<OtpRecord>>)
    ensures r.Saved? <==> OtpErrors(phoneNumber, otp) == []
    ensures r.Failed? ==> r.failure.ValidationError?
    ensures r.Saved? ==> |r.value| == |store| + 1 && r.value[..|store|] == store
    ensures r.Saved? ==> var rec := r.value[|store|];
      rec.phoneNumber == Trim(phoneNumber.value) && rec.otp == Trim(otp.value)
      && rec.createdAt == now && rec.expiresAt == now + 300000
      && !rec.isVerified && rec.attempts == 0
  {
    var errs := OtpErrors(phoneNumber, otp);
    if errs != [] then Failed(ValidationError("OTP", errs))
    else
      var rec := OtpRecord(Trim(phoneNumber.value), Trim(otp.value), now, now + OtpLifetimeMs, false, 0);
      assert (store + [rec])[..|store|] == store;
      Saved(store + [rec])
  }

  /** A number the pattern refuses (but not empty once trimmed) makes the
      create fail with the pattern's one field error. */
  lemma BadPhoneRefused(store: seq<OtpRecord>, phoneNumber: string, otp: string, now: int)
    requires Trim(phoneNumber) != "" && !MatchesPhonePattern(Trim(phoneNumber)) && Trim(otp) != ""
    ensures CreateOtp(store, Some(phoneNumber), Some(otp), now)
         == Failed(ValidationError("OTP", [FieldError("phoneNumber", "Please fill a valid phone number")]))
  {
    assert OtpErrors(Some(phoneNumber), Some(otp)) == [FieldError("phoneNumber", "Please fill a valid phone number")] by {
      var phone := TrimField(Some(phoneNumber));
      var code := TrimField(Some(otp));
      assert Required("phoneNumber", phone, "Phone number is required") == [];
      assert Required("otp", code, "OTP code is required") == [];
    }
  }

  /** Creating a record keeps every stored record valid. */
  lemma CreateOtpKeepsValid(store: seq<OtpRecord>, phoneNumber: Option<string>, otp: Option<string>, now: int)
    requires ValidStore(store)
    requires phoneNumber.Some? && MatchesPhonePattern(Trim(phoneNumber.value)) && otp.Some? && Trim(otp.value) != ""
    ensures ValidStore(CreateOtp(store, phoneNumber, otp, now).value)
  {
    var s := CreateOtp(store, phoneNumber, otp, now).value;
    assert s == store + [s[|store|]] by { assert s[..|store|] == store; }
    AppendKeepsValid(store, s[|store|]);
  }

  /** Adding a valid record keeps the store valid. */
  lemma AppendKeepsValid(store: seq<OtpRecord>, rec: OtpRecord)
    requires ValidStore(store) && ValidRecord(rec)
    ensures ValidStore(store + [rec])
  {
    var s := store + [rec];
    forall i | 0 <= i < |s| ensures ValidRecord(s[i]) {
      if i < |store| { assert s[i] == store[i]; }
    }
  }

  // ---------------------------------------------------------------------
  // OTP.findOne({ phoneNumber, isVerified: false }).sort({ createdAt: -1 })
  // ---------------------------------------------------------------------

  /** The records verify-otp may pick for `phone`. */
  predicate Pending(r: OtpRecord, phone: string) {
    r.phoneNumber == phone && !r.isVerified
  }

  /** Record `i` is at least as new as record `j`; among equal creation
      times the later insertion counts as newer. */
  predicate NoOlder(store: seq<OtpRecord>, i: nat, j: nat)
    requires i < |store| && j < |store|
  {
    store[j].createdAt < store[i].createdAt || (store[j].createdAt == store[i].createdAt && j <= i)
  }

  /** The index of the newest pending record for `phone`, if any. */
  function NewestPending(store: seq<OtpRecord>, phone: string): (r: Option<nat>)
    ensures r.Some? ==> r.value < |store| && Pending(store[r.value], phone)
    ensures r.Some? ==> forall j :: 0 <= j < |store| && Pending(store[j], phone) ==> NoOlder(store, r.value, j)
    ensures r.None? <==> forall j :: 0 <= j < |store| ==> !Pending(store[j], phone)
    decreases |store|
  {
    if |store| == 0 then None
    else
      var last := |store| - 1;
      var rest := NewestPending(store[..last], phone);
      if !Pending(store[last], phone) then rest
      else if rest.Some? && store[rest.value].createdAt > store[last].createdAt then rest
      else Some(last)
  }

  /** A code issued at a time no earlier than any stored record is the one
      the next verification looks at. */
  lemma IssuedCodeIsNewest(store: seq<OtpRecord>, phoneNumber: Option<string>, otp: Option<string>, now: int)
    requires forall i :: 0 <= i < |store| ==> store[i].createdAt <= now
    requires phoneNumber.Some? && MatchesPhonePattern(Trim(phoneNumber.value)) && otp.Some? && Trim(otp.value) != ""
    ensures NewestPending(CreateOtp(store, phoneNumber, otp, now).value, Trim(phoneNumber.value)) == Some(|store|)
  {
    var s := CreateOtp(store, phoneNumber, otp, now).value;
    assert s == store + [s[|store|]] by { assert s[..|store|] == store; }
    AppendedIsNewest(store, s[|store|], Trim(phoneNumber.value));
  }

  /** A pending record appended no earlier than every stored one is the
      newest pending record for its number. */
  lemma AppendedIsNewest(store: seq<OtpRecord>, rec: OtpRecord, phone: string)
    requires Pending(rec, phone)
    requires forall i :: 0 <= i < |store| ==> store[i].createdAt <= rec.createdAt
    ensures NewestPending(store + [rec], phone) == Some(|store|)
  {
    var s := store + [rec];
    assert s[..|store|] == store;
  }

  // ---------------------------------------------------------------------
  // The checks verify-otp makes on the record it found
  // ---------------------------------------------------------------------

  datatype Attempt = Expired | Exhausted | WrongCode | Accepted

  /** The checks in order: expired (strictly before `now`), then three or
      more wrong guesses, then the code; a wrong code counts a guess, the
      right one marks the record verified. */
  function TryCode(rec: OtpRecord, code: string, now: int): (r: (Attempt, OtpRecord))
    ensures r.0 == Expired <==> rec.expiresAt < now
    ensures r.0 == Exhausted <==> rec.expiresAt >= now && rec.attempts >= MaxAttempts
    ensures r.0 == Accepted <==> rec.expiresAt >= now && rec.attempts < MaxAttempts && rec.otp == code
    ensures r.0 == WrongCode ==> r.1 == rec.(attempts := rec.attempts + 1)
    ensures r.0 == Accepted ==> r.1 == rec.(isVerified := true)
    ensures r.0 == Expired || r.0 == Exhausted ==> r.1 == rec
  {
    if rec.expiresAt < now then (Expired, rec)
    else if rec.attempts >= MaxAttempts then (Exhausted, rec)
    else if rec.otp != code then (WrongCode, rec.(attempts := rec.attempts + 1))
    else (Accepted, rec.(isVerified := true))
  }

  /** Replacing one record by a valid one keeps the store valid. */
  lemma ReplaceKeepsValid(store: seq<OtpRecord>, i: nat, rec: OtpRecord)
    requires ValidStore(store) && i < |store| && ValidRecord(rec)
    ensures ValidStore(store[i := rec])
  {
    var s := store[i := rec];
    forall k | 0 <= k < |s| ensures ValidRecord(s[k]) {
      if k != i { assert s[k] == store[k]; }
    }
  }

  /** A valid record stays valid: the guess counter is checked before it is
      raised, so it never passes three. */
  lemma TryCodeKeepsValid(rec: OtpRecord, code: string, now: int)
    requires ValidRecord(rec)
    ensures ValidRecord(TryCode(rec, code, now).1)
    ensures TryCode(rec, code, now).1.attempts <= MaxAttempts
  {
  }

  /** Only the guess counter and the verified flag ever change, the counter
      only upward and the flag only from false to true. */
  lemma TryCodeMonotone(rec: OtpRecord, code: string, now: int)
    ensures var r := TryCode(rec, code, now).1;
      r.phoneNumber == rec.phoneNumber && r.otp == rec.otp
      && r.createdAt == rec.createdAt && r.expiresAt == rec.expiresAt
      && rec.attempts <= r.attempts <= rec.attempts + 1
      && (rec.isVerified ==> r.isVerified)
  {
  }

  /** Once three wrong guesses are in, even the right code is refused. */
  lemma ExhaustedRefusesRightCode(rec: OtpRecord, now: int)
    requires rec.expiresAt >= now && rec.attempts >= MaxAttempts
    ensures TryCode(rec, rec.otp, now) == (Exhausted, rec)
  {
  }

  /** A fresh code guessed wrong three times, within its lifetime, is
      locked: the fourth try is refused whatever it is. */
  lemma ThreeWrongGuessesLock(rec: OtpRecord, g1: string, g2: string, g3: string, g4: string,
                              t1: int, t2: int, t3: int, t4: int)
    requires rec.attempts == 0 && rec.expiresAt >= t4
    requires t1 <= t2 <= t3 <= t4
    requires g1 != rec.otp && g2 != rec.otp && g3 != rec.otp
    ensures var r1 := TryCode(rec, g1, t1).1;
      var r2 := TryCode(r1, g2, t2).1;
      var r3 := TryCode(r2, g3, t3).1;
      r3.attempts == 3 && TryCode(r3, g4, t4) == (Exhausted, r3)
  {
  }

  // ---------------------------------------------------------------------
  // TTL index: { expiresAt: 1 }, { expireAfterSeconds: 0 }
  // ---------------------------------------------------------------------

  /** One sweep of the TTL monitor at time `now`: of the records already
      past `expiresAt`, those marked in `sweep` are deleted. Which ones a
      sweep reaches is up to the server, so any choice is allowed. */
  function Evict(store: seq<OtpRecord>, now: int, sweep: seq<bool>): (r: seq<OtpRecord>)
    requires |sweep| == |store|
    ensures |r| <= |store|
    ensures forall j :: 0 <= j < |r| ==> r[j] in store
    ensures forall i :: 0 <= i < |store| && store[i].expiresAt >= now ==> store[i] in r
    decreases |store|
  {
    if |store| == 0 then []
    else
      var last := |store| - 1;
      var rest := Evict(store[..last], now, sweep[..last]);
      assert forall j :: 0 <= j < |rest| ==> rest[j] in store by {
        forall j | 0 <= j < |rest| ensures rest[j] in store {
          var i :| 0 <= i < last && store[..last][i] == rest[j];
          assert store[i] == rest[j];
        }
      }
      if sweep[last] && store[last].expiresAt < now then rest
      else
        assert forall i :: 0 <= i < last && store[i].expiresAt >= now ==> store[i] in rest by {
          forall i | 0 <= i < last && store[i].expiresAt >= now ensures store[i] in rest {
            assert store[..last][i] == store[i];
          }
        }
        rest + [store[last]]
  }

  /** Whether a record outlives a sweep: it is kept unless it is marked
      and already past `expiresAt`. */
  predicate Survives(rec: OtpRecord, now: int, swept: bool) {
    !(swept && rec.expiresAt < now)
  }

  /** The positions of the records a sweep keeps, in increasing order. */
  function KeptIndices(store: seq<OtpRecord>, now: int, sweep: seq<bool>): (idx: seq<nat>)
    requires |sweep| == |store|
    ensures forall k :: 0 <= k < |idx| ==> idx[k] < |store| && Survives(store[idx[k]], now, sweep[idx[k]])
    ensures forall k, l :: 0 <= k < l < |idx| ==> idx[k] < idx[l]
    decreases |store|
  {
    if |store| == 0 then []
    else
      var last := |store| - 1;
      var rest := KeptIndices(store[..last], now, sweep[..last]);
      assert forall k :: 0 <= k < |rest| ==> store[..last][rest[k]] == store[rest[k]];
      if Survives(store[last], now, sweep[last]) then rest + [last] else rest
  }

  /** Every surviving position is among the kept ones. */
  lemma {:induction false} KeptIndicesComplete(store: seq<OtpRecord>, now: int, sweep: seq<bool>, i: nat)
    requires |sweep| == |store| && i < |store| && Survives(store[i], now, sweep[i])
    ensures i in KeptIndices(store, now, sweep)
    decreases |store|
  {
    var last := |store| - 1;
    SweepStep(store, now, sweep);
    if i < last {
      KeptIndicesComplete(store[..last], now, sweep[..last], i);
    }
  }

  /** A sweep deletes records and does nothing else: what is left is the
      store's kept records, each once, in their original order. */
  lemma {:induction false} EvictKeepsOrder(store: seq<OtpRecord>, now: int, sweep: seq<bool>)
    requires |sweep| == |store|
    ensures var r := Evict(store, now, sweep);
      var idx := KeptIndices(store, now, sweep);
      |r| == |idx| && forall k :: 0 <= k < |r| ==> r[k] == store[idx[k]]
    decreases |store|
  {
    if |store| > 0 {
      var last := |store| - 1;
      var left := Evict(store[..last], now, sweep[..last]);
      var rest := KeptIndices(store[..last], now, sweep[..last]);
      assert |left| == |rest| && forall k :: 0 <= k < |left| ==> rest[k] < |store| && left[k] == store[rest[k]] by {
        EvictKeepsOrder(store[..last], now, sweep[..last]);
        assert forall k :: 0 <= k < |rest| ==> rest[k] < last;
      }
      SweepStep(store, now, sweep);
      PickedStep(store, left, rest, Survives(store[last], now, sweep[last]),
                 Evict(store, now, sweep), KeptIndices(store, now, sweep));
    }
  }

  /** The step of the induction above, over plain sequences: extending the
      kept positions by the last one extends the picked records by the
      last record. */
  lemma PickedStep(store: seq<OtpRecord>, left: seq<OtpRecord>, rest: seq<nat>, keep: bool,
                   r: seq<OtpRecord>, idx: seq<nat>)
    requires |store| > 0 && |left| == |rest|
    requires forall k :: 0 <= k < |left| ==> rest[k] < |store| && left[k] == store[rest[k]]
    requires r == left + (if keep then [store[|store| - 1]] else [])
    requires idx == rest + (if keep then [|store| - 1] else [])
    ensures |r| == |idx| && forall k :: 0 <= k < |r| ==> r[k] == store[idx[k]]
  {
  }

  /** One step of a sweep: the last record is kept or dropped on its own. */
  lemma SweepStep(store: seq<OtpRecord>, now: int, sweep: seq<bool>)
    requires |sweep| == |store| > 0
    ensures var last := |store| - 1;
      var keep := Survives(store[last], now, sweep[last]);
      && Evict(store, now, sweep) == Evict(store[..last], now, sweep[..last]) + (if keep then [store[last]] else [])
      && KeptIndices(store, now, sweep) == KeptIndices(store[..last], now, sweep[..last]) + (if keep then [last] else [])
  {
  }

  /** Eviction keeps every record valid. */
  lemma EvictKeepsValid(store: seq<OtpRecord>, now: int, sweep: seq<bool>)
    requires |sweep| == |store| && ValidStore(store)
    ensures ValidStore(Evict(store, now, sweep))
  {
    var r := Evict(store, now, sweep);
    forall j | 0 <= j < |r|
      ensures ValidRecord(r[j])
    {
      var i :| 0 <= i < |store| && store[i] == r[j];
    }
  }

  /** If verify-otp would find a live record, it finds the same record after
      any TTL sweep. */
  lemma {:induction false} EvictKeepsLiveNewest(store: seq<OtpRecord>, now: int, sweep: seq<bool>, phone: string)
    requires |sweep| == |store|
    requires NewestPending(store, phone).Some?
    requires store[NewestPending(store, phone).value].expiresAt >= now
    ensures var e := Evict(store, now, sweep);
      var m := NewestPending(e, phone);
      m.Some? && e[m.value] == store[NewestPending(store, phone).value]
    decreases |store|
  {
    var last := |store| - 1;
    var init := store[..last];
    var n := NewestPending(store, phone).value;
    var rest := NewestPending(init, phone);
    var eInit := Evict(init, now, sweep[..last]);
    var e := Evict(store, now, sweep);
    if n == last {
      assert e == eInit + [store[last]];
      assert e[..|eInit|] == eInit;
      var m := NewestPending(eInit, phone);
      if m.Some? {
        var i :| 0 <= i < |store| && store[i] == eInit[m.value];
        assert NoOlder(store, n, i);
      }
    } else {
      assert rest == Some(n) && init[n] == store[n];
      EvictKeepsLiveNewest(init, now, sweep[..last], phone);
      if e != eInit {
        assert e == eInit + [store[last]];
        assert e[..|eInit|] == eInit;
      }
    }
  }

  /** If the newest pending record has expired, then after any TTL sweep
      there is either no pending record or the newest one has expired too,
      since records of the same lifetime created earlier expire earlier. */
  lemma EvictExpiredNewest(store: seq<OtpRecord>, now: int, sweep: seq<bool>, phone: string)
    requires |sweep| == |store| && ValidStore(store)
    requires NewestPending(store, phone).Some?
    requires store[NewestPending(store, phone).value].expiresAt < now
    ensures var e := Evict(store, now, sweep);
      var m := NewestPending(e, phone);
      m.None? || e[m.value].expiresAt < now
  {
    var n := NewestPending(store, phone).value;
    var e := Evict(store, now, sweep);
    var m := NewestPending(e, phone);
    if m.Some? {
      var i :| 0 <= i < |store| && store[i] == e[m.value];
      assert NoOlder(store, n, i);
    }
  }

  /** With no pending record, a sweep cannot create one. */
  lemma EvictNoPending(store: seq<OtpRecord>, now: int, sweep: seq<bool>, phone: string)
    requires |sweep| == |store|
    requires NewestPending(store, phone).None?
    ensures NewestPending(Evict(store, now, sweep), phone).None?
  {
    var e := Evict(store, now, sweep);
    forall j | 0 <= j < |e|
      ensures !Pending(e[j], phone)
    {
      var i :| 0 <= i < |store| && store[i] == e[j];
    }
  }
}
