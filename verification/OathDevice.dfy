/** The OATH commands over the record files and the command buffer. */
module OathDevice {
  import opened Bytes
  import opened Cbor
  import opened OathRecord
  import opened OathStore
  import opened OathTheorems

  /** `asn1_find_tag`. */
  method FindTag(d: bytes, tag: byte) returns (r: Option<Place>)
    ensures r == Find(d, tag, 0)
  {
    var i := 0;
    while Header(d, i).Some?
      invariant Find(d, tag, i) == Find(d, tag, 0)
      decreases |d| - i
    {
      var (t, p) := Header(d, i).value;
      if t == tag {
        return Some(p);
      }
      i := p.End();
    }
    r := None;
  }

  class Oath {
    const hasher: Hasher
    var files: seq<bytes>
    var validated: bool

    ghost predicate Valid()
      reads this
    {
      hasher.Lawful() && |files| == RECORDS && Book(files)
    }

    constructor (h: Hasher)
      requires h.Lawful()
      ensures Valid() && hasher == h && validated && forall n :: Lookup(files, n) == None
    {
      hasher := h;
      files := seq(RECORDS, _ => []);
      validated := true;
    }

    method FindOathCred(name: bytes) returns (r: nat)
      ensures r == FindCred(files, name)
    {
      r := 0;
      while r < |files|
        invariant r <= |files| && forall k :: 0 <= k < r ==> !Holds(files[k], name)
      {
        if files[r] != [] {
          var p := FindTag(files[r], NAME);
          if p.Some? && Value(files[r], p.value) == name {
            assert Holds(files[r], name);
            return;
          }
        }
        r := r + 1;
      }
    }

    /** The end of an HOTP record is put in order in the command buffer itself. */
    method Prepare(apdu: array<byte>, nc: nat, key: Place) returns (nc': nat)
      requires nc + HEADROOM <= apdu.Length && Find(apdu[..nc], KEY, 0) == Some(key)
      modifies apdu
      ensures (apdu[..], nc') == Prepared(old(apdu[..]), nc)
    {
      nc' := nc;
      ghost var was := apdu[..];
      var d := apdu[..nc];
      assert was[..nc] == d && was[key.start] == apdu[key.start];
      if Hotp(apdu[key.start]) {
        var imf := FindTag(d, IMF);
        if imf.None? {
          Write(apdu, nc, NO_COUNTER);
          nc' := nc + HEADROOM;
        } else if imf.value.len < COUNTER {
          PadFactor(apdu, imf.value);
          nc' := nc + (COUNTER - imf.value.len);
        }
      }
    }

    /** `memcpy`, `memmove` or `memset`: v is computed before anything is written. */
    method Write(apdu: array<byte>, at: nat, v: bytes)
      requires at + |v| <= apdu.Length
      modifies apdu
      ensures apdu[..] == Overwrite(old(apdu[..]), at, v)
    {
      forall k | 0 <= k < |v| {
        apdu[at + k] := v[k];
      }
    }

    /** The `memmove` of the counter, the zeros before it, and its length. */
    method Pad(apdu: array<byte>, p: Place)
      requires 0 < p.start && p.len < COUNTER && p.start + COUNTER <= apdu.Length
      modifies apdu
      ensures forall k :: 0 <= k < apdu.Length ==> apdu[k] == PaddedByte(old(apdu[..]), p, k)
    {
      var gap := COUNTER - p.len;
      forall k | 0 <= k < p.len {
        apdu[p.start + gap + k] := apdu[p.start + k];
      }
      forall k | 0 <= k < gap {
        apdu[p.start + k] := 0;
      }
      apdu[p.start - 1] := COUNTER;
    }

    method PadFactor(apdu: array<byte>, p: Place)
      requires 0 < p.start && p.len < COUNTER && p.start + COUNTER <= apdu.Length
      modifies apdu
      ensures apdu[..] == Padded(old(apdu[..]), p)
    {
      Pad(apdu, p);
      PaddedBytes(old(apdu[..]), p, apdu[..]);
    }

    method CmdPut(apdu: array<byte>, nc: nat) returns (word: Word)
      requires Valid() && nc + HEADROOM <= apdu.Length
      modifies this`files, apdu
      ensures if !validated then word == NotValidated && files == old(files)
              else (word, files) == Put(old(files), old(apdu[..]), nc)
      ensures old(Consistent(apdu[..], nc)) ==> Valid()
    {
      PutKeepsBook(files, apdu[..], nc);
      if !validated {
        return NotValidated;
      }
      var key := FindTag(apdu[..nc], KEY);
      var name := FindTag(apdu[..nc], NAME);
      assert apdu[..][..nc] == apdu[..nc];
      if key.None? || name.None? {
        return IncorrectParams;
      }
      var nc' := Prepare(apdu, nc, key.value);
      word := StoreRecord(apdu[..][name.value.start..name.value.End()], apdu[..][..nc']);
    }

    /** Over the record of that name, or into the first free file. */
    method StoreRecord(name: bytes, record: bytes) returns (word: Word)
      modifies this`files
      ensures var (i, e) := (FindCred(old(files), name), FirstEmpty(old(files)));
        if i < |old(files)| then word == Done && files == old(files)[i := record]
        else if e < |old(files)| then word == Done && files == old(files)[e := record]
        else word == FileFull && files == old(files)
    {
      var i := FindOathCred(name);
      if i < |files| {
        files := files[i := record];
        return Done;
      }
      i := 0;
      while i < |files|
        invariant i <= |files| && forall k :: 0 <= k < i ==> files[k] != []
        invariant files == old(files)
      {
        if files[i] == [] {
          files := files[i := record];
          return Done;
        }
        i := i + 1;
      }
      word := FileFull;
    }

    method CmdDelete(data: bytes) returns (word: Word)
      requires Valid()
      modifies this`files
      ensures Valid()
      ensures if !validated then word == NotValidated && files == old(files)
              else (word, files) == Delete(old(files), data)
    {
      if !validated {
        return NotValidated;
      }
      DeleteKeepsBook(files, data);
      var name := FindTag(data, NAME);
      if name.None? {
        return IncorrectParams;
      }
      var i := FindOathCred(Value(data, name.value));
      if i == |files| {
        return DataInvalid;
      }
      files := files[i := []];
      word := Done;
    }

    method CmdList() returns (word: Word, response: bytes)
      requires Valid()
      ensures if !validated then word == NotValidated && response == []
              else word == Done && response == List(files)
    {
      response := [];
      if !validated {
        return NotValidated, [];
      }
      response := ListFiles(files);
      word := Done;
    }

    method CmdCalculate(data: bytes, p2: byte) returns (word: Word, response: bytes)
      requires Valid()
      modifies this`files
      ensures Valid()
      ensures if p2 <= 1 && !validated then word == NotValidated && response == [] && files == old(files)
              else (word, response, files) == Calculate(hasher, old(files), data, p2)
    {
      response := [];
      CalculateKeepsBook(hasher, files, data, p2);
      if p2 != 0 && p2 != 1 {
        return IncorrectP1P2, [];
      }
      if !validated {
        return NotValidated, [];
      }
      var chal := FindTag(data, CHALLENGE);
      var name := FindTag(data, NAME);
      if chal.None? || name.None? {
        return IncorrectParams, [];
      }
      var i := FindOathCred(Value(data, name.value));
      if i == |files| {
        return DataInvalid, [];
      }
      word, response := CalculateFile(i, Value(data, chal.value), p2);
    }

    /** The code for record i; an HOTP record is written back with its counter incremented. */
    method CalculateFile(i: nat, challenge: bytes, p2: byte) returns (word: Word, response: bytes)
      requires hasher.Lawful() && i < |files| && Complete(files[i]) && p2 <= 1
      modifies this`files
      ensures (word, response, files) == CalculateAt(hasher, old(files), i, challenge, p2)
    {
      var f := files[i];
      var hotp := Hotp(Kind(f));
      var code := CalculateOath(Get(f, KEY).value, if hotp then Get(f, IMF).value else challenge, p2 == 1);
      response := [RESPONSE + p2];
      if code.None? {
        return ExecError, response;
      }
      response := response + code.value;
      if hotp {
        Tick(i);
      }
      word := Done;
    }

    /** The counter, read as a 64-bit number, is incremented and written back in place. */
    method Tick(i: nat)
      requires i < |files| && Counts(files[i])
      modifies this`files
      ensures files == old(files)[i := Ticked(old(files)[i])]
    {
      var v := CounterOf(files[i]);
      v := (v + 1) % UINT64;
      files := files[i := WithCounter(files[i], v)];
    }

    method CalculateOath(key: bytes, challenge: bytes, truncate: bool) returns (code: Option<bytes>)
      requires hasher.Lawful()
      ensures code == Code(hasher, key, challenge, truncate)
    {
      if |key| < 2 || key[0] % 16 == 0 || key[0] % 16 > 3 {
        return None;
      }
      var mac := hasher.hmac(key[0] as nat % 16, key[2..], challenge);
      if mac.None? {
        return None;
      }
      if truncate {
        var offset := mac.value[|mac.value| - 1] % 16;
        code := Some([5, key[1]] + [mac.value[offset] % 128, mac.value[offset + 1], mac.value[offset + 2],
                                    mac.value[offset + 3]]);
      } else {
        code := Some([Byte(|mac.value| + 1), key[1]] + mac.value);
      }
    }
  }

  method ListFiles(files: seq<bytes>) returns (response: bytes)
    requires Sound(files)
    ensures response == List(files)
  {
    response := [];
    var i := 0;
    assert files[0..] == files;
    while i < |files|
      invariant Listing(files, i, response)
    {
      ListNext(files, i, response);
      response := response + Piece(files[i]);
      i := i + 1;
    }
  }

  /** The response covers the files before i. */
  predicate Listing(s: seq<bytes>, i: nat, response: bytes)
    requires Sound(s)
  {
    i <= |s| && Sound(s[i..]) && response + List(s[i..]) == List(s)
  }

  lemma ListSplit(s: seq<bytes>, i: nat)
    requires i < |s| && Sound(s[i..])
    ensures (s[i] == [] || Complete(s[i])) && Sound(s[i + 1..])
    ensures List(s[i..]) == Piece(s[i]) + List(s[i + 1..])
  {
    var rest := s[i..];
    assert rest[0] == s[i] && rest[1..] == s[i + 1..];
  }

  lemma Regroup(a: bytes, b: bytes, c: bytes)
    ensures a + (b + c) == (a + b) + c
  {
  }

  lemma ListNext(s: seq<bytes>, i: nat, response: bytes)
    requires Sound(s) && i < |s| && Listing(s, i, response)
    ensures (s[i] == [] || Complete(s[i])) && Listing(s, i + 1, response + Piece(s[i]))
  {
    ListSplit(s, i);
    Regroup(response, Piece(s[i]), List(s[i + 1..]));
  }

  function PaddedByte(buf: bytes, p: Place, k: nat): byte
    requires 0 < p.start && p.len < COUNTER && p.start + COUNTER <= |buf| && k < |buf|
  {
    var gap := COUNTER - p.len;
    if k == p.start - 1 then COUNTER
    else if p.start <= k < p.start + gap then 0
    else if p.start + gap <= k < p.start + COUNTER then buf[k - gap]
    else buf[k]
  }

  lemma PaddedBytes(buf: bytes, p: Place, s: bytes)
    requires 0 < p.start && p.len < COUNTER && p.start + COUNTER <= |buf| == |s|
    requires forall k :: 0 <= k < |s| ==> s[k] == PaddedByte(buf, p, k)
    ensures s == Padded(buf, p)
  {
    forall k | 0 <= k < |s|
      ensures s[k] == Padded(buf, p)[k]
    {
      PaddedAt(buf, p, k);
    }
  }

  /** Before the length byte, the length byte, the gap, the digits moved up, and the rest. */
  lemma PaddedAt(buf: bytes, p: Place, k: nat)
    requires 0 < p.start && p.len < COUNTER && p.start + COUNTER <= |buf| && k < |buf|
    ensures Padded(buf, p)[k] == PaddedByte(buf, p, k)
  {
    var gap := COUNTER - p.len;
    var head := buf[..p.start - 1] + [COUNTER] + Fill<byte>(0, gap);
    assert Padded(buf, p) == head + (Value(buf, p) + buf[p.start + COUNTER..]);
    if k < p.start - 1 {
      assert head[k] == buf[k];
    } else if k < p.start + gap {
      assert head[k] == PaddedByte(buf, p, k);
    } else if k < p.start + COUNTER {
      assert Value(buf, p)[k - p.start - gap] == buf[k - gap];
    } else {
      assert buf[p.start + COUNTER..][k - p.start - COUNTER] == buf[k];
    }
  }

  lemma PutKeepsBook(s: seq<bytes>, buf: bytes, nc: nat)
    requires Book(s) && nc + HEADROOM <= |buf|
    ensures Consistent(buf, nc) ==> Book(Put(s, buf, nc).1)
  {
    if Consistent(buf, nc) && Put(s, buf, nc).0 == Done {
      PutRefinesUpdate(s, buf, nc, []);
    }
  }

  lemma DeleteKeepsBook(s: seq<bytes>, data: bytes)
    requires Book(s)
    ensures Book(Delete(s, data).1)
  {
    DeleteRefinesRemoval(s, data, []);
  }

  lemma CalculateKeepsBook(h: Hasher, s: seq<bytes>, data: bytes, p2: byte)
    requires h.Lawful() && Book(s)
    ensures Book(Calculate(h, s, data, p2).2)
  {
    CalculateTicks(h, s, data, p2, []);
  }
}
