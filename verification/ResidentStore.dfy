/**
 * The resident credential store as the firmware runs it: loops over the 256 credential files and the
 * 256 RP files, which it rewrites one at a time, and the global counters of the two enumerations.
 */
module ResidentStore {
  import opened Bytes
  import opened SealedCredential
  import opened ResidentTables
  import opened ResidentTheorems
  import opened ResidentUsers
  import opened ResidentEnumeration

  class ResidentStore {
    const vault: Vault
    var cred: seq<bytes>
    var rp: seq<bytes>
    var rpCounter: byte
    var rpTotal: byte
    var credCounter: byte
    var credTotal: byte
    var credRp: Hash

    function Files(): Tables
      reads this
    {
      Tables(cred, rp)
    }

    function Cursor(): Cursors
      reads this
    {
      Cursors(rpCounter, rpTotal, credCounter, credTotal, credRp)
    }

    ghost predicate Valid()
      reads this
    {
      WellFormed(Files())
    }

    /** Fresh flash. */
    constructor (v: Vault)
      ensures Valid() && vault == v && Files() == NOTHING && Agree(v, Files())
      ensures Cursor().rpCounter == 1 && Cursor().rpTotal == 0
      ensures Cursor().credCounter == 1 && Cursor().credTotal == 0
    {
      vault := v;
      cred, rp := NOTHING.cred, NOTHING.rp;
      rpCounter, rpTotal, credCounter, credTotal := 1, 0, 1, 0;
      credRp := seq(32, _ => 0);
      new;
      NothingIndexes();
    }

    /** `credential_store`. */
    method StoreCredential(id: bytes, h: Hash) returns (status: Status)
      requires Valid()
      modifies this`cred, this`rp
      ensures Valid() && (status, Files()) == Store(vault, old(Files()), id, h)
    {
      var c := LoadCredential(vault, id, h);
      if c.Err? {
        return c.error;
      }
      var slot, newRecord := FindSlot(h, c.value.UserId());
      if slot == -1 {
        return NO_SLOT;
      }
      StoreCases(vault, Files(), id, h, slot, newRecord);
      status := StoreAt(slot, newRecord, id, h, c.value.RpId());
    }

    /** `credential_store` once the file is chosen. */
    method StoreAt(slot: nat, newRecord: bool, id: bytes, h: Hash, rpId: bytes) returns (status: Status)
      requires Valid() && slot < SLOTS
      modifies this`cred, this`rp
      ensures Valid() && (status, Files()) == Placed(old(Files()), slot, newRecord, id, h, rpId)
    {
      cred := cred[slot := h + id];
      status := Success;
      if newRecord {
        status := AddReference(h, rpId);
      }
    }

    /** The first loop of `credential_store`: the matching file, or else the first free one. */
    method FindSlot(h: Hash, uid: bytes) returns (slot: int, newRecord: bool)
      requires Valid()
      ensures var (m, e) := (FirstMatch(vault, cred, h, uid), FirstEmpty(cred));
        && newRecord == (m == SLOTS)
        && slot == if m < SLOTS then m else if e < SLOTS then e else -1
    {
      slot, newRecord := -1, true;
      var i := 0;
      while i < SLOTS && newRecord
        invariant 0 <= i <= SLOTS
        invariant newRecord ==> forall k :: 0 <= k < i ==> !Matches(vault, cred[k], h, uid)
        invariant newRecord && slot == -1 ==> forall k :: 0 <= k < i ==> cred[k] != []
        invariant newRecord && slot != -1 ==>
          0 <= slot < i && cred[slot] == [] && forall k :: 0 <= k < slot ==> cred[k] != []
        invariant !newRecord ==> 0 <= slot < SLOTS && slot == FirstMatch(vault, cred, h, uid)
      {
        if cred[i] == [] {
          if slot == -1 {
            slot := i;
          }
        } else if cred[i][..32] == h {
          var stored := LoadCredential(vault, cred[i][32..], h);
          if stored.Ok? && Comparable(stored.value.UserId(), uid) {
            slot, newRecord := i, false;
            assert Matches(vault, cred[i], h, uid);
          }
        }
        i := i + 1;
      }
      if newRecord {
        assert slot != -1 ==> FirstEmpty(cred) == slot;
      }
    }

    /** The second loop of `credential_store`: count one more credential of h. */
    method AddReference(h: Hash, rpId: bytes) returns (status: Status)
      requires |rp| == SLOTS && forall i :: 0 <= i < SLOTS ==> rp[i] == [] || |rp[i]| >= 33
      modifies this`rp
      ensures |rp| == SLOTS && forall i :: 0 <= i < SLOTS ==> rp[i] == [] || |rp[i]| >= 33
      ensures match Reference(old(rp), h, rpId)
        case Some(rp') => status == Success && rp == rp'
        case None => status == NO_SLOT && rp == old(rp)
    {
      var slot := -1;
      var i, found := 0, false;
      while i < SLOTS && !found
        invariant 0 <= i <= SLOTS
        invariant !found ==> forall k :: 0 <= k < i ==> !Records(rp[k], h)
        invariant !found && slot == -1 ==> forall k :: 0 <= k < i ==> rp[k] != []
        invariant !found && slot != -1 ==>
          0 <= slot < i && rp[slot] == [] && forall k :: 0 <= k < slot ==> rp[k] != []
        invariant found ==> 0 <= slot < SLOTS && rp[slot] != [] && slot == FirstRecord(rp, h)
      {
        if rp[i] == [] {
          if slot == -1 {
            slot := i;
          }
        } else if rp[i][1..33] == h {
          slot, found := i, true;
          assert Records(rp[i], h);
        }
        i := i + 1;
      }
      if slot == -1 {
        return NO_SLOT;
      }
      if rp[slot] != [] {
        rp := rp[slot := [Byte(rp[slot][0] as int + 1)] + rp[slot][1..]];
      } else {
        assert FirstEmpty(rp) == slot;
        rp := rp[slot := [1] + h + rpId];
      }
      status := Success;
    }

    /** Subcommand 0x06. `granted` is the outcome of the pinUvAuthToken checks. */
    method DeleteCredential(id: Option<bytes>, granted: bool) returns (status: Status)
      requires Valid()
      modifies this`cred, this`rp
      ensures Valid()
      ensures (status, Files()) ==
        if id.None? then (MissingParameter, old(Files()))
        else if !granted then (PinAuthInvalid, old(Files()))
        else Delete(old(Files()), id.value)
    {
      if id.None? {
        return MissingParameter;
      }
      if !granted {
        return PinAuthInvalid;
      }
      ghost var before := Files();
      ReleaseShape(rp, if FirstById(cred, id.value) < SLOTS then CredHash(cred[FirstById(cred, id.value)]) else credRp);
      for i := 0 to SLOTS
        invariant Files() == before
        invariant forall k :: 0 <= k < i ==> !HasId(cred[k], id.value)
      {
        if cred[i] != [] && Comparable(cred[i][32..], id.value) {
          assert FirstById(cred, id.value) == i;
          var h: Hash := cred[i][..32];
          cred := cred[i := []];
          RemoveReference(h);
          return Success;
        }
      }
      return NoCredentials;
    }

    /** The inner loop of subcommand 0x06: count one credential of h less. */
    method RemoveReference(h: Hash)
      requires |rp| == SLOTS && forall i :: 0 <= i < SLOTS ==> rp[i] == [] || |rp[i]| >= 33
      modifies this`rp
      ensures rp == Release(old(rp), h)
    {
      for j := 0 to SLOTS
        invariant rp == old(rp)
        invariant forall k :: 0 <= k < j ==> !Records(rp[k], h)
      {
        if rp[j] != [] && rp[j][1..33] == h {
          assert Records(rp[j], h);
          var count := Byte(rp[j][0] as int - 1);
          if count == 0 {
            rp := rp[j := []];
          } else {
            rp := rp[j := [count] + rp[j][1..]];
          }
          return;
        }
      }
    }

    /** Subcommand 0x07. */
    method UpdateUserInformation(id: Option<bytes>, u: Option<Update>, granted: bool) returns (status: Status)
      requires Valid() && (u.Some? ==> TypedUpdate(u.value))
      modifies this`cred, this`rp
      ensures Valid()
      ensures (status, Files()) ==
        if id.None? || u.None? then (MissingParameter, old(Files()))
        else if !granted then (PinAuthInvalid, old(Files()))
        else UpdateUser(vault, old(Files()), id.value, u.value)
    {
      if id.None? || u.None? {
        return MissingParameter;
      }
      if !granted {
        return PinAuthInvalid;
      }
      for i := 0 to SLOTS
        invariant Files() == old(Files())
        invariant forall k :: 0 <= k < i ==> !HasId(cred[k], id.value)
      {
        if cred[i] != [] && Comparable(cred[i][32..], id.value) {
          assert FirstById(cred, id.value) == i;
          var h: Hash := cred[i][..32];
          var c := LoadCredential(vault, cred[i][32..], h);
          if c.Err? {
            return NotAllowed;
          }
          if !Comparable(u.value.userId, c.value.UserId()) {
            return InvalidParameter;
          }
          var d := Redraft(c.value, u.value);
          var created := CreateCredential(vault, d, u.value.now, u.value.iv, u.value.tail);
          if created.Err? {
            return NotAllowed;
          }
          var stored := StoreCredential(created.value, h);
          return if stored == Success then Success else NotAllowed;
        }
      }
      return NoCredentials;
    }

    /** One command of a run; it keeps the tables in agreement and, when refused, as they were. */
    method Execute(c: Command) returns (status: Status)
      requires Indexes(Files()) && (c.UpdateCommand? ==> TypedUpdate(c.u))
      modifies this`cred, this`rp
      ensures (status, Files()) == Step(vault, old(Files()), c)
      ensures Indexes(Files()) && (status != Success ==> Files() == old(Files()))
      ensures old(Agree(vault, Files())) ==> Agree(vault, Files())
    {
      StepAgrees(vault, Files(), c);
      match c
      case StoreCommand(id, h) => status := StoreCredential(id, h);
      case DeleteCommand(id) => status := DeleteCredential(Some(id), true);
      case UpdateCommand(id, u) => status := UpdateUserInformation(Some(id), Some(u), true);
    }

    /** Subcommand 0x01: existing credentials and room for more, counted in one byte. */
    method Metadata() returns (existing: byte, remaining: int)
      requires Valid()
      ensures existing == Byte(Live(cred)) && remaining == SLOTS - existing
      ensures Indexes(Files()) ==> existing == Byte(CountBytes(rp))
      ensures existing == Live(cred) <==> exists i :: 0 <= i < SLOTS && cred[i] == []
    {
      existing := 0;
      for i := 0 to SLOTS
        invariant existing == Byte(Live(cred[..i]))
      {
        assert cred[..i + 1][..i] == cred[..i];
        if cred[i] != [] {
          existing := Byte(existing as int + 1);
        }
      }
      assert cred[..SLOTS] == cred;
      remaining := SLOTS - existing;
      MetadataExact(cred);
      if Indexes(Files()) {
        CountBytesAddUp(Files());
      }
    }

    /** Subcommands 0x02 (begin) and 0x03. `granted` matters to 0x02 only. */
    method EnumerateRps(begin: bool, granted: bool) returns (reply: Reply)
      requires Valid()
      modifies this`rpCounter, this`rpTotal
      ensures (reply, Cursor()) ==
        if begin && !granted then (Refused(PinAuthInvalid), old(Cursor()))
        else if begin then RpBegin(LiveRps(Files()), old(Cursor()))
        else RpNext(LiveRps(Files()), old(Cursor()))
    {
      if begin {
        if !granted {
          return Refused(PinAuthInvalid);
        }
        rpCounter, rpTotal := 1, 0;
      } else if rpCounter > rpTotal {
        return Refused(NotAllowed);
      }
      var file, total := ScanRps(begin);
      rpTotal := total;
      if file.None? {
        return Refused(NoCredentials);
      }
      NthOfRps(Files(), rpCounter);
      rpCounter := Byte(rpCounter as int + 1);
      reply := RpReply(file.value[33..], file.value[1..33], if begin then Some(rpTotal) else None);
    }

    /** The loop of 0x02 and 0x03: the file at the cursor; 0x02 runs to the end to count all live RPs. */
    method ScanRps(begin: bool) returns (file: Option<bytes>, total: byte)
      requires Valid()
      ensures file == Nth(LiveRps(Files()), rpCounter)
      ensures total == if begin then Byte(|LiveRps(Files())|) else rpTotal
    {
      var files, counter := rp, rpCounter;
      file, total := None, if begin then 0 else rpTotal;
      var skip: byte := 0;
      ghost var seen: seq<bytes> := [];
      ghost var at := Byte(counter as int - 1);
      var i, stop := 0, false;
      while i < SLOTS && !stop
        invariant 0 <= i <= SLOTS
        invariant seen == Select(LiveRp, files[..i]) && |seen| <= i
        invariant skip == Byte(|seen|)
        invariant file == if at < |seen| then Some(seen[at]) else None
        invariant stop ==> !begin && file.Some?
        invariant total == if begin then skip else rpTotal
      {
        SelectNext(LiveRp, files, i);
        if files[i] != [] && files[i][0] > 0 {
          OneMore(|seen|, skip, counter);
          seen := seen + [files[i]];
          skip := Byte(skip as int + 1);
          if skip == counter {
            file := if file.None? then Some(files[i]) else file;
            stop := !begin;
          }
          total := if begin then Byte(total as int + 1) else total;
        }
        i := i + 1;
      }
      ScanEnds(LiveRp, files, i, counter);
    }

    /** Subcommands 0x04 (begin, for the RP hash given) and 0x05. `granted` matters to 0x04 only. */
    method EnumerateCredentials(begin: bool, rpHash: Option<Hash>, granted: bool) returns (reply: Reply)
      requires Valid()
      modifies this`credCounter, this`credTotal, this`credRp
      ensures (reply, Cursor()) ==
        if begin && rpHash.None? then (Refused(MissingParameter), old(Cursor()))
        else if begin && !granted then (Refused(PinAuthInvalid), old(Cursor()))
        else if begin then CredBegin(vault, CredsOf(Files(), rpHash.value), old(Cursor()), rpHash.value)
        else CredNext(vault, CredsOf(Files(), old(credRp)), old(Cursor()))
    {
      var h: Hash;
      if begin {
        if rpHash.None? {
          return Refused(MissingParameter);
        }
        if !granted {
          return Refused(PinAuthInvalid);
        }
        credCounter, credTotal := 1, 0;
        h := rpHash.value;
      } else {
        if credCounter > credTotal {
          return Refused(NotAllowed);
        }
        h := credRp;
      }
      var file, total := ScanCredentials(begin, h);
      credTotal := total;
      if file.None? {
        return Refused(NoCredentials);
      }
      NthOfCreds(Files(), h, credCounter);
      var c := LoadCredential(vault, file.value[32..], h);
      if c.Err? || !CurveKnown(c.value.curve) {
        return Refused(NotAllowed);
      }
      credCounter := Byte(credCounter as int + 1);
      if credCounter <= credTotal {
        credRp := h;
      }
      reply := CredReply(c.value, if begin then Some(credTotal) else None);
    }

    /** The loop of 0x04 and 0x05. */
    method ScanCredentials(begin: bool, h: Hash) returns (file: Option<bytes>, total: byte)
      requires Valid()
      ensures file == Nth(CredsOf(Files(), h), credCounter)
      ensures total == if begin then Byte(|CredsOf(Files(), h)|) else credTotal
    {
      var files, counter := cred, credCounter;
      file, total := None, if begin then 0 else credTotal;
      var skip: byte := 0;
      ghost var seen: seq<bytes> := [];
      ghost var at := Byte(counter as int - 1);
      var i, stop := 0, false;
      while i < SLOTS && !stop
        invariant 0 <= i <= SLOTS
        invariant seen == Select(OwnedBy(h), files[..i]) && |seen| <= i
        invariant skip == Byte(|seen|)
        invariant file == if at < |seen| then Some(seen[at]) else None
        invariant stop ==> !begin && file.Some?
        invariant total == if begin then skip else credTotal
      {
        SelectNext(OwnedBy(h), files, i);
        if files[i] != [] && files[i][..32] == h {
          OneMore(|seen|, skip, counter);
          seen := seen + [files[i]];
          skip := Byte(skip as int + 1);
          if skip == counter {
            file := if file.None? then Some(files[i]) else file;
            stop := !begin;
          }
          total := if begin then Byte(total as int + 1) else total;
        }
        i := i + 1;
      }
      ScanEnds(OwnedBy(h), files, i, counter);
    }
  }

  /** The tables with a credential put into a slot, and counted if it is a new one. */
  function Placed(t: Tables, slot: nat, newRecord: bool, id: bytes, h: Hash, rpId: bytes): (Status, Tables)
    requires slot < |t.cred|
  {
    var cred := t.cred[slot := h + id];
    if !newRecord then (Success, Tables(cred, t.rp))
    else
      match Reference(t.rp, h, rpId)
      case Some(rp) => (Success, Tables(cred, rp))
      case None => (NO_SLOT, Tables(cred, t.rp))
  }

  /** A store, once the slot is found. */
  lemma StoreCases(v: Vault, t: Tables, id: bytes, h: Hash, slot: nat, newRecord: bool)
    requires |t.cred| == SLOTS && slot < SLOTS && Load(v, id, h).Ok?
    requires var (m, e) := (FirstMatch(v, t.cred, h, Load(v, id, h).value.UserId()), FirstEmpty(t.cred));
      newRecord == (m == SLOTS) && slot == if m < SLOTS then m else e
    ensures Store(v, t, id, h) == Placed(t, slot, newRecord, id, h, Load(v, id, h).value.RpId())
  {
  }

  /** One more selected file after n: a one-byte count of them steps on, and tells whether n is the one sought. */
  lemma OneMore(n: nat, skip: byte, counter: byte)
    requires n < 256 && skip == Byte(n)
    ensures Byte(skip as int + 1) == Byte(n + 1)
    ensures Byte(skip as int + 1) == counter <==> n == Byte(counter as int - 1)
  {
  }

  lemma SelectNext(p: bytes -> bool, s: seq<bytes>, i: nat)
    requires i < |s|
    ensures Select(p, s[..i + 1]) == Select(p, s[..i]) + (if p(s[i]) then [s[i]] else [])
  {
    assert s[..i + 1][..i] == s[..i];
  }

  /** What is selected from a prefix starts what is selected from the whole. */
  lemma {:induction false} SelectPrefix(p: bytes -> bool, s: seq<bytes>, n: nat)
    requires n <= |s|
    ensures Select(p, s[..n]) <= Select(p, s)
    decreases |s| - n
  {
    if n == |s| {
      assert s[..n] == s;
    } else {
      assert s[..n + 1][..n] == s[..n];
      SelectPrefix(p, s, n + 1);
    }
  }

  /** A scan that stops early has what a full scan would have found. */
  lemma ScanEnds(p: bytes -> bool, s: seq<bytes>, i: nat, n: byte)
    requires i <= |s| && (i < |s| ==> Nth(Select(p, s[..i]), n).Some?)
    ensures Nth(Select(p, s[..i]), n) == Nth(Select(p, s), n)
    ensures i == |s| ==> Select(p, s[..i]) == Select(p, s)
  {
    SelectPrefix(p, s, i);
    assert i == |s| ==> s[..i] == s;
  }
}
