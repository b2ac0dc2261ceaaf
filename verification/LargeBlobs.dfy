/**
 * The large-blob array (section 6.10 of CTAP 2.1): a fragment-by-fragment upload into a RAM buffer,
 * committed to flash when complete and intact, and reads of the stored array in chunks.
 */
module LargeBlobs {
  import opened Bytes

  const MAX_FRAGMENT: nat := 960
  const MAX_LARGE_BLOB: nat := 2048
  const MIN_LARGE_BLOB: nat := 17
  const UINT64_MAX: nat := 0xFFFF_FFFF_FFFF_FFFF

  /** The 17 bytes that a scan of blank flash stores. */
  const INITIAL_BLOB: bytes :=
    [0x80, 0x76, 0xBE, 0x8B, 0x52, 0x8D, 0x00, 0x75, 0xF7, 0xAA, 0xE9, 0x8D, 0x6F, 0xA5, 0x7A, 0x6D, 0x3C]

  /**
   * A write: the fragment, its offset (UINT64_MAX when missing), the total length, the protocol number
   * of the authorization (0 when missing), and what the MAC check and the permission say.
   */
  datatype Write = Write(fragment: bytes, offset: nat, length: nat, hasParam: bool, protocol: nat, authorized: bool)

  /** A blob no longer than 17 bytes is taken as it is; a longer one must end in the left half of its hash. */
  predicate Intact(sha256: bytes -> Hash, blob: bytes)
    requires |blob| >= MIN_LARGE_BLOB
  {
    |blob| > MIN_LARGE_BLOB ==> sha256(blob[..|blob| - 16])[..16] == blob[|blob| - 16..]
  }

  /** What may be stored. */
  predicate Storable(sha256: bytes -> Hash, blob: bytes) {
    MIN_LARGE_BLOB <= |blob| <= MAX_LARGE_BLOB && Intact(sha256, blob)
  }

  /** The upload in progress as its accepted fragments put together, and the length announced for it. */
  datatype Upload = Upload(expected: nat, received: bytes)

  /** The refusals that come before the first change. */
  function EarlyRefusal(w: Write): Option<Status> {
    if w.offset == UINT64_MAX then Some(InvalidParameter)
    else if |w.fragment| > MAX_FRAGMENT then Some(InvalidLength)
    else if w.offset == 0 then
      if w.length == 0 then Some(InvalidParameter)
      else if w.length > MAX_LARGE_BLOB then Some(StorageFull)
      else if w.length < MIN_LARGE_BLOB then Some(InvalidParameter)
      else None
    else if w.length != 0 then Some(InvalidParameter)
    else None
  }

  /** A write at offset 0 starts over, whether it is then accepted or not. */
  function Started(u: Upload, w: Write): Upload {
    if w.offset == 0 then Upload(w.length, []) else u
  }

  /** The refusals of a write to the started upload. */
  function LateRefusal(u: Upload, w: Write): Option<Status> {
    if w.offset != |u.received| then Some(InvalidSeq)
    else if !w.hasParam then Some(PuatRequired)
    else if w.protocol == 0 then Some(MissingParameter)
    else if !w.authorized then Some(PinAuthInvalid)
    else if w.offset + |w.fragment| > u.expected then Some(InvalidParameter)
    else None
  }

  /** nextOffset <= expectedLength <= 2048, and nothing is received before a length is announced. */
  predicate Sound(u: Upload) {
    && |u.received| <= u.expected <= MAX_LARGE_BLOB
    && (u.expected == 0 || u.expected >= MIN_LARGE_BLOB)
  }

  /** One write, on the upload and the stored blob. */
  function WriteStep(sha256: bytes -> Hash, u: Upload, stored: bytes, w: Write): (Status, Upload, bytes)
    requires Sound(u)
  {
    var early := EarlyRefusal(w);
    if early.Some? then (early.value, u, stored)
    else
      var u1 := Started(u, w);
      var late := LateRefusal(u1, w);
      if late.Some? then (late.value, u1, stored)
      else
        var u2 := Upload(u1.expected, u1.received + w.fragment);
        if |u2.received| != u2.expected then (Success, u2, stored)
        else if !Intact(sha256, u2.received) then (IntegrityFailure, u2, stored)
        else (Success, u2, u2.received)
  }

  /**
   * The upload stays sound. The stored blob changes only when a write completes the announced length
   * with intact content, and what is stored then is all that was received.
   */
  lemma StoredOnlyWhenComplete(sha256: bytes -> Hash, u: Upload, stored: bytes, w: Write)
    requires Sound(u)
    ensures var (status, u', stored') := WriteStep(sha256, u, stored, w);
      && Sound(u')
      && (stored' != stored ==> status == Success && |u'.received| == u'.expected && stored' == u'.received)
      && (stored' != stored ==> Storable(sha256, stored'))
      && (u'.received == u.received || u'.received == []
          || u'.received == (if w.offset == 0 then [] else u.received) + w.fragment)
  {
  }

  /**
   * A fragment is received exactly when it is authorized, of at most 960 bytes, next in order, and within
   * a length of 17 to 2048 bytes that the first one announces. The last one is stored with all before it
   * when the left half of the hash fits. What is not received changes nothing, but that a first one
   * abandons the upload.
   */
  lemma WriteExactly(sha256: bytes -> Hash, u: Upload, stored: bytes, w: Write)
    requires Sound(u)
    ensures var (status, u', stored') := WriteStep(sha256, u, stored, w);
      var (total, got) := if w.offset == 0 then (w.length, []) else (u.expected, u.received);
      var blob := got + w.fragment;
      var fits := |blob| > 17 ==> sha256(blob[..|blob| - 16])[..16] == blob[|blob| - 16..];
      var wellFormed := w.offset != 0xFFFF_FFFF_FFFF_FFFF && |w.fragment| <= 960
        && (if w.offset == 0 then 17 <= w.length <= 2048 else w.length == 0);
      if wellFormed && w.offset == |got| && w.hasParam && w.protocol != 0 && w.authorized && |blob| <= total then
        && u' == Upload(total, blob)
        && status == (if |blob| == total && !fits then IntegrityFailure else Success)
        && stored' == if |blob| == total && fits then blob else stored
      else
        && status != Success && stored' == stored
        && u' == if wellFormed && w.offset == 0 then Upload(w.length, []) else u
  {
  }

  // ---------- runs ----------

  function RunWrites(sha256: bytes -> Hash, u: Upload, stored: bytes, ws: seq<Write>): (r: (Upload, bytes))
    requires Sound(u)
    ensures Sound(r.0)
  {
    if ws == [] then (u, stored)
    else
      var (u1, stored1) := RunWrites(sha256, u, stored, ws[..|ws| - 1]);
      StoredOnlyWhenComplete(sha256, u1, stored1, ws[|ws| - 1]);
      var (_, u2, stored2) := WriteStep(sha256, u1, stored1, ws[|ws| - 1]);
      (u2, stored2)
  }

  const IDLE := Upload(0, [])

  /** From the first scan on, whatever is written, the stored blob has 17 to 2048 bytes and is intact. */
  lemma {:induction false} RunStorable(sha256: bytes -> Hash, ws: seq<Write>)
    ensures Storable(sha256, RunWrites(sha256, IDLE, INITIAL_BLOB, ws).1)
  {
    if ws != [] {
      var n := |ws| - 1;
      RunStorable(sha256, ws[..n]);
      var (u, stored) := RunWrites(sha256, IDLE, INITIAL_BLOB, ws[..n]);
      StoredOnlyWhenComplete(sha256, u, stored, ws[n]);
    }
  }

  // ---------- a whole upload ----------

  function Concat(fs: seq<bytes>): bytes {
    if fs == [] then [] else Concat(fs[..|fs| - 1]) + fs[|fs| - 1]
  }

  /** The authorized write of a fragment that follows `sent` in an upload of `total` bytes. */
  function Next(sent: nat, fragment: bytes, total: nat): Write {
    Write(fragment, sent, if sent == 0 then total else 0, true, 1, true)
  }

  /** The writes that a platform sends for the fragments fs of one blob. */
  function Writes(fs: seq<bytes>, total: nat): (ws: seq<Write>)
    ensures |ws| == |fs|
  {
    if fs == [] then []
    else Writes(fs[..|fs| - 1], total) + [Next(|Concat(fs[..|fs| - 1])|, fs[|fs| - 1], total)]
  }

  /** What is stored when `received` has arrived of an upload of `total` bytes. */
  function Committed(sha256: bytes -> Hash, received: bytes, total: nat, stored: bytes): bytes
    requires total >= MIN_LARGE_BLOB
  {
    if |received| == total && Intact(sha256, received) then received else stored
  }

  /** The next fragment of an upload in order is received; the last one is committed if the whole is intact. */
  lemma NextIsReceived(sha256: bytes -> Hash, u: Upload, stored: bytes, got: bytes, fragment: bytes, total: nat)
    requires Sound(u) && (got == [] || u == Upload(total, got))
    requires MIN_LARGE_BLOB <= total <= MAX_LARGE_BLOB && |got + fragment| <= total && |fragment| <= MAX_FRAGMENT
    ensures var (status, u', stored') := WriteStep(sha256, u, stored, Next(|got|, fragment, total));
      && u' == Upload(total, got + fragment)
      && stored' == Committed(sha256, got + fragment, total, stored)
      && (status == Success <==> |got + fragment| < total || Intact(sha256, got + fragment))
  {
  }

  lemma RunOneMore(sha256: bytes -> Hash, u: Upload, stored: bytes, ws: seq<Write>, w: Write)
    requires Sound(u)
    ensures var (u1, stored1) := RunWrites(sha256, u, stored, ws);
      var (_, u2, stored2) := WriteStep(sha256, u1, stored1, w);
      RunWrites(sha256, u, stored, ws + [w]) == (u2, stored2)
  {
    assert (ws + [w])[..|ws|] == ws;
  }

  lemma {:induction false} UploadSoFar(sha256: bytes -> Hash, u: Upload, stored: bytes, fs: seq<bytes>, total: nat)
    requires Sound(u) && fs != []
    requires MIN_LARGE_BLOB <= total <= MAX_LARGE_BLOB && |Concat(fs)| <= total
    requires forall i :: 0 <= i < |fs| ==> |fs[i]| <= MAX_FRAGMENT
    ensures var (u', stored') := RunWrites(sha256, u, stored, Writes(fs, total));
      u' == Upload(total, Concat(fs)) && stored' == Committed(sha256, Concat(fs), total, stored)
  {
    var n := |fs| - 1;
    var got := Concat(fs[..n]);
    if n > 0 {
      if |got| == total {
        assert Concat(fs) == got;
      }
      UploadSoFar(sha256, u, stored, fs[..n], total);
    }
    var (u1, stored1) := RunWrites(sha256, u, stored, Writes(fs[..n], total));
    NextIsReceived(sha256, u1, stored1, got, fs[n], total);
    RunOneMore(sha256, u, stored, Writes(fs[..n], total), Next(|got|, fs[n], total));
  }

  /**
   * Uploading 17 to 2048 bytes in any authorized fragments, in order, stores exactly what was sent if
   * it is intact, and otherwise leaves what was stored.
   */
  lemma UploadStores(sha256: bytes -> Hash, u: Upload, stored: bytes, fs: seq<bytes>)
    requires Sound(u) && MIN_LARGE_BLOB <= |Concat(fs)| <= MAX_LARGE_BLOB
    requires forall i :: 0 <= i < |fs| ==> |fs[i]| <= MAX_FRAGMENT
    ensures RunWrites(sha256, u, stored, Writes(fs, |Concat(fs)|)).1
      == if Intact(sha256, Concat(fs)) then Concat(fs) else stored
  {
    UploadSoFar(sha256, u, stored, fs, |Concat(fs)|);
  }

  // ---------- reads ----------

  /** A read of at most `get` bytes at an offset; a length parameter is refused. */
  function Read(stored: bytes, get: nat, offset: nat, length: nat): Result<bytes> {
    if offset == UINT64_MAX || length != 0 || offset > |stored| then Err(InvalidParameter)
    else Ok(stored[offset..offset + Min(get, |stored| - offset)])
  }

  /** A read is refused exactly with a length, or beyond the end; it gives the bytes there, as many as there are. */
  lemma ReadExactly(stored: bytes, get: nat, offset: nat, length: nat)
    requires |stored| <= MAX_LARGE_BLOB
    ensures var r := Read(stored, get, offset, length);
      && (r.Ok? <==> length == 0 && offset <= |stored|)
      && (r.Ok? ==> r.value <= stored[offset..])
      && (r.Ok? ==> |r.value| == get || (|r.value| < get && offset + |r.value| == |stored|))
      && (r.Err? ==> r.error == InvalidParameter)
  {
  }

  /** Reads in chunks of n from an offset on, each where the one before ended. */
  function ReadAll(stored: bytes, n: nat, offset: nat): bytes
    requires n > 0 && offset <= |stored| < UINT64_MAX
    decreases |stored| - offset
  {
    var chunk := Read(stored, n, offset, 0).value;
    if chunk == [] then [] else chunk + ReadAll(stored, n, offset + |chunk|)
  }

  /** Reading in chunks of any size reassembles the stored blob. */
  lemma {:induction false} ReadAllReassembles(stored: bytes, n: nat, offset: nat)
    requires n > 0 && offset <= |stored| < UINT64_MAX
    ensures ReadAll(stored, n, offset) == stored[offset..]
    decreases |stored| - offset
  {
    var chunk := Read(stored, n, offset, 0).value;
    if chunk != [] {
      ReadAllReassembles(stored, n, offset + |chunk|);
      assert stored[offset..] == chunk + stored[offset + |chunk|..];
    }
  }

  // ---------- the firmware's writer ----------

  const ERROR_CODE: int := -0x12

  class Writer {
    const sha256: bytes -> Hash
    const tempLba: array<byte>
    var expectedLength: nat
    var expectedNextOffset: nat
    var stored: bytes

    ghost predicate Valid()
      reads this, tempLba
    {
      && tempLba.Length == MAX_LARGE_BLOB
      && expectedNextOffset <= expectedLength <= MAX_LARGE_BLOB
      && (expectedLength == 0 || expectedLength >= MIN_LARGE_BLOB)
    }

    /** The upload that the two counters and the buffer stand for. */
    ghost function Progress(): (u: Upload)
      requires Valid()
      reads this, tempLba
      ensures Sound(u)
    {
      Upload(expectedLength, tempLba[..expectedNextOffset])
    }

    constructor (hash: bytes -> Hash)
      ensures Valid() && sha256 == hash && Progress() == IDLE && stored == INITIAL_BLOB
      ensures fresh(tempLba)
    {
      sha256 := hash;
      tempLba := new byte[MAX_LARGE_BLOB](_ => 0);
      expectedLength, expectedNextOffset := 0, 0;
      stored := INITIAL_BLOB;
    }

    /** `cbor_large_blobs` with a fragment to set. Every refusal reaches the platform as one error code. */
    method WriteFragment(w: Write) returns (code: int)
      requires Valid()
      modifies this, tempLba
      ensures Valid()
      ensures var (status, u, blob) := WriteStep(sha256, old(Progress()), old(stored), w);
        Progress() == u && stored == blob && code == if status == Success then 0 else ERROR_CODE
    {
      if w.offset == UINT64_MAX {
        return ERROR_CODE;
      }
      if |w.fragment| > MAX_FRAGMENT {
        return ERROR_CODE;
      }
      if w.offset == 0 {
        if w.length == 0 || w.length > MAX_LARGE_BLOB || w.length < MIN_LARGE_BLOB {
          return ERROR_CODE;
        }
        expectedLength := w.length;
        expectedNextOffset := 0;
      } else if w.length != 0 {
        return ERROR_CODE;
      }
      if w.offset != expectedNextOffset || !w.hasParam || w.protocol == 0 || !w.authorized {
        return ERROR_CODE;
      }
      if w.offset + |w.fragment| > expectedLength {
        return ERROR_CODE;
      }
      CopyFragment(w.offset == 0, w.fragment);
      expectedNextOffset := expectedNextOffset + |w.fragment|;
      var intact := Commit();
      return if intact then 0 else ERROR_CODE;
    }

    /** The end of an accepted write: a complete upload is checked and stored. */
    method Commit() returns (intact: bool)
      requires Valid() && expectedLength > 0
      modifies this`stored
      ensures Valid() && Progress() == old(Progress())
      ensures var u := Progress();
        var complete := |u.received| == u.expected;
        && intact == (complete ==> Intact(sha256, u.received))
        && stored == if complete && intact then u.received else old(stored)
    {
      if expectedNextOffset == expectedLength {
        var blob := tempLba[..expectedLength];
        if expectedLength > MIN_LARGE_BLOB
           && sha256(blob[..expectedLength - 16])[..16] != blob[expectedLength - 16..] {
          return false;
        }
        stored := blob;
      }
      return true;
    }

    /** The `memset` of a first fragment and the `memcpy` of every fragment. */
    method CopyFragment(first: bool, fragment: bytes)
      requires Valid() && expectedNextOffset + |fragment| <= expectedLength && (first ==> expectedNextOffset == 0)
      modifies tempLba
      ensures tempLba[..expectedNextOffset + |fragment|] == old(tempLba[..expectedNextOffset]) + fragment
    {
      if first {
        for i := 0 to tempLba.Length {
          tempLba[i] := 0;
        }
      }
      var at := expectedNextOffset;
      for i := 0 to |fragment|
        invariant tempLba[..at + i] == old(tempLba[..at]) + fragment[..i]
      {
        tempLba[at + i] := fragment[i];
        assert tempLba[..at + i + 1] == tempLba[..at + i] + [fragment[i]];
      }
      assert fragment[..|fragment|] == fragment;
    }
  }
}
