/** The OATH store is a map, and an HOTP counter counts the codes given out, whatever else is done. */
module OathTheorems {
  import opened Bytes
  import opened Cbor
  import opened OathRecord
  import opened OathStore
  import opened Counting

  // ---------- put ----------

  /** Put would be refused for a missing tag. */
  predicate Lacking(buf: bytes, nc: nat)
    requires nc <= |buf|
  {
    Find(buf[..nc], KEY, 0).None? || Find(buf[..nc], NAME, 0).None?
  }

  /** An intact put stores what was sent, the moving factor apart; an HOTP record gets a counter. */
  lemma IntactKeeps(buf: bytes, nc: nat)
    requires nc + HEADROOM <= |buf| && !Lacking(buf, nc) && Intact(buf, nc)
    ensures Kept(buf[..nc], Record(buf, nc))
    ensures Hotp(buf[Find(buf[..nc], KEY, 0).value.start]) ==> Counts(Record(buf, nc))
  {
    var (d, key) := (buf[..nc], Find(buf[..nc], KEY, 0).value);
    if Hotp(buf[key.start]) && Find(d, IMF, 0).None? {
      AppendedRecord(buf, nc);
    } else if Hotp(buf[key.start]) && Find(d, IMF, 0).value.len < COUNTER {
      PaddedRecord(buf, nc);
    }
  }

  /** It is a complete record, under the name that was sent. */
  lemma RecordNamed(buf: bytes, nc: nat)
    requires nc + HEADROOM <= |buf| && !Lacking(buf, nc) && Intact(buf, nc)
    ensures Get(buf[..nc], NAME) == Some(Searched(buf, nc)) && Holds(Record(buf, nc), Searched(buf, nc))
  {
    IntactKeeps(buf, nc);
    var (r, p) := (Record(buf, nc), Find(buf[..nc], NAME, 0).value);
    assert Value(r, p) == Value(Prepared(buf, nc).0, p);
  }

  lemma RecordComplete(buf: bytes, nc: nat)
    requires nc + HEADROOM <= |buf| && !Lacking(buf, nc) && Intact(buf, nc)
    ensures Complete(Record(buf, nc))
  {
    IntactKeeps(buf, nc);
    var (d, r, p) := (buf[..nc], Record(buf, nc), Find(buf[..nc], KEY, 0).value);
    if !Hotp(buf[p.start]) {
      assert r == d;
    }
  }

  // ---------- the store as a map ----------

  /** A sound store: complete records, and no name twice. */
  ghost predicate Book(s: seq<bytes>) {
    Sound(s) && Distinct(s)
  }

  lemma FoundAt(s: seq<bytes>, i: nat, n: bytes)
    requires Distinct(s) && i < |s| && Holds(s[i], n)
    ensures FindCred(s, n) == i && Lookup(s, n) == Some(s[i])
  {
  }

  /** Replacing a file by one that holds name n, where no other does, sets n in the map. */
  lemma SetIsMapUpdate(s: seq<bytes>, i: nat, f: bytes, n: bytes, m: bytes)
    requires Distinct(s) && i < |s| && Holds(f, n)
    requires Holds(s[i], n) || (s[i] == [] && FindCred(s, n) == |s|)
    ensures Distinct(s[i := f])
    ensures Lookup(s[i := f], m) == if m == n then Some(f) else Lookup(s, m)
  {
    var s' := s[i := f];
    assert forall x :: Holds(f, x) ==> x == n;
    assert Distinct(s');
    if m == n {
      FoundAt(s', i, n);
    } else if FindCred(s, m) < |s| {
      FoundAt(s', FindCred(s, m), m);
    }
  }

  /** Emptying the file that holds name n removes n from the map. */
  lemma ClearIsMapRemoval(s: seq<bytes>, i: nat, n: bytes, m: bytes)
    requires Distinct(s) && i < |s| && Holds(s[i], n)
    ensures Distinct(s[i := []])
    ensures Lookup(s[i := []], m) == if m == n then None else Lookup(s, m)
  {
    var s' := s[i := []];
    assert Distinct(s');
    if m != n && FindCred(s, m) < |s| {
      FoundAt(s', FindCred(s, m), m);
    }
  }

  /**
   * The record that a put stores is complete, and has the name that the put looks for. This depends on
   * the request alone.
   */
  predicate Consistent(buf: bytes, nc: nat)
    requires nc + HEADROOM <= |buf|
  {
    Lacking(buf, nc) || (Complete(Record(buf, nc)) && Holds(Record(buf, nc), Searched(buf, nc)))
  }

  lemma IntactConsistent(buf: bytes, nc: nat)
    requires nc + HEADROOM <= |buf| && Intact(buf, nc)
    ensures Consistent(buf, nc)
    ensures !Lacking(buf, nc) ==>
      Get(buf[..nc], NAME) == Some(Searched(buf, nc)) && Kept(buf[..nc], Record(buf, nc))
    ensures !Lacking(buf, nc) && !Hotp(buf[Find(buf[..nc], KEY, 0).value.start]) ==> Record(buf, nc) == buf[..nc]
  {
    if !Lacking(buf, nc) {
      IntactKeeps(buf, nc);
      RecordNamed(buf, nc);
      RecordComplete(buf, nc);
    }
  }

  /** A consistent put is a map update: it sets the name that it looks for, and nothing else. */
  lemma PutRefinesUpdate(s: seq<bytes>, buf: bytes, nc: nat, m: bytes)
    requires Book(s) && nc + HEADROOM <= |buf| && Consistent(buf, nc)
    requires Put(s, buf, nc).0 == Done
    ensures Book(Put(s, buf, nc).1)
    ensures Lookup(Put(s, buf, nc).1, m) == if m == Searched(buf, nc) then Some(Record(buf, nc)) else Lookup(s, m)
  {
    var n := Searched(buf, nc);
    var (i, e) := (FindCred(s, n), FirstEmpty(s));
    SetIsMapUpdate(s, if i < |s| then i else e, Record(buf, nc), n, m);
  }

  /** Files that hold just f. */
  function Only(f: bytes): (s: seq<bytes>)
    ensures |s| == RECORDS
  {
    [f] + Fill([], RECORDS - 1)
  }

  lemma OnlyIsBook(f: bytes)
    requires f == [] || Complete(f)
    ensures Book(Only(f))
  {
  }

  /** Into a store without the name, a put stores its record, whatever name that has. */
  lemma PutAnyway(f: bytes, buf: bytes, nc: nat)
    requires nc + HEADROOM <= |buf| && !Lacking(buf, nc) && !Holds(f, Searched(buf, nc))
    ensures Put(Only(f), buf, nc) == (Done, Only(f)[if f == [] then 0 else 1 := Record(buf, nc)])
  {
    var s := Only(f);
    assert FindCred(s, Searched(buf, nc)) == RECORDS;
    assert s[0] == f && s[1] == [];
    assert FirstEmpty(s) == if f == [] then 0 else 1;
  }

  /** An inconsistent put damages some sound store: an empty one, or one that has the record's own name. */
  lemma InconsistentDamages(buf: bytes, nc: nat) returns (s: seq<bytes>)
    requires nc + HEADROOM <= |buf| && !Consistent(buf, nc)
    ensures |s| == RECORDS && Book(s) && !Book(Put(s, buf, nc).1)
  {
    var f := Record(buf, nc);
    assert f != [];
    if !Complete(f) {
      s := Only([]);
      OnlyIsBook([]);
      PutAnyway([], buf, nc);
      assert Put(s, buf, nc).1[0] == f;
    } else {
      s := Only(f);
      OnlyIsBook(f);
      PutAnyway(f, buf, nc);
      var s' := Put(s, buf, nc).1;
      assert Holds(s'[0], Get(f, NAME).value) && Holds(s'[1], Get(f, NAME).value);
    }
  }

  /** A request to put keeps every sound store sound exactly when it is consistent. */
  lemma PutKeepsBookExactly(buf: bytes, nc: nat)
    requires nc + HEADROOM <= |buf|
    ensures (forall s :: |s| == RECORDS && Book(s) ==> Book(Put(s, buf, nc).1)) <==> Consistent(buf, nc)
  {
    if Consistent(buf, nc) {
      forall s | |s| == RECORDS && Book(s)
        ensures Book(Put(s, buf, nc).1)
      {
        if Put(s, buf, nc).0 == Done {
          PutRefinesUpdate(s, buf, nc, []);
        }
      }
    } else {
      var s := InconsistentDamages(buf, nc);
    }
  }

  /** A put is refused for want of room exactly when every file is used and none has the name. */
  lemma FileFullExactly(s: seq<bytes>, buf: bytes, nc: nat)
    requires nc + HEADROOM <= |buf| && !Lacking(buf, nc)
    ensures Put(s, buf, nc).0 == FileFull
      <==> (forall i :: 0 <= i < |s| ==> s[i] != []) && Lookup(s, Searched(buf, nc)) == None
    ensures Put(s, buf, nc).0 == FileFull || Put(s, buf, nc).0 == Done
    ensures Put(s, buf, nc).0 == FileFull ==> Put(s, buf, nc).1 == s
  {
    if FirstEmpty(s) < |s| {
      assert s[FirstEmpty(s)] == [];
    }
  }

  /** Delete removes the name it is given, and nothing else; it succeeds exactly when the name is there. */
  lemma DeleteRefinesRemoval(s: seq<bytes>, data: bytes, m: bytes)
    requires Book(s)
    ensures Book(Delete(s, data).1)
    ensures Lookup(Delete(s, data).1, m) == if Some(m) == Get(data, NAME) then None else Lookup(s, m)
    ensures Delete(s, data).0 == Done <==> Get(data, NAME).Some? && Lookup(s, Get(data, NAME).value).Some?
    ensures Delete(s, data).0 == IncorrectParams <==> Get(data, NAME).None?
    ensures Delete(s, data).0 in {Done, IncorrectParams, DataInvalid}
  {
    if Get(data, NAME).Some? {
      var n := Get(data, NAME).value;
      if FindCred(s, n) < |s| {
        ClearIsMapRemoval(s, FindCred(s, n), n, m);
      }
    }
  }

  lemma TickedKeeps(f: bytes)
    requires Counts(f)
    ensures Kept(f, Ticked(f)) && Counts(Ticked(f)) && CounterOf(Ticked(f)) == (CounterOf(f) + 1) % UINT64
    ensures Find(Ticked(f), IMF, 0) == Find(f, IMF, 0)
  {
    WithCounterExact(f, (CounterOf(f) + 1) % UINT64);
  }

  lemma TickedComplete(f: bytes, n: bytes)
    requires Complete(f) && Counts(f) && Holds(f, n)
    ensures Complete(Ticked(f)) && Holds(Ticked(f), n)
  {
    TickedKeeps(f);
  }

  /** What calculate does to the files. */
  lemma CalculateShape(h: Hasher, s: seq<bytes>, data: bytes, p2: byte)
    requires h.Lawful() && Sound(s)
    ensures var (word, _, s') := Calculate(h, s, data, p2);
      if word != Done then s' == s
      else
        && Get(data, NAME).Some?
        && var i := FindCred(s, Get(data, NAME).value);
           i < |s| && Complete(s[i]) && s' == if Hotp(Kind(s[i])) then s[i := Ticked(s[i])] else s
  {
  }

  /** Calculate moves on the counter of an HOTP record of that name when it succeeds, and nothing else. */
  lemma CalculateTicks(h: Hasher, s: seq<bytes>, data: bytes, p2: byte, m: bytes)
    requires h.Lawful() && Book(s)
    ensures var (word, _, s') := Calculate(h, s, data, p2);
      && Book(s')
      && (word == Done ==> Get(data, NAME).Some? && Lookup(s, Get(data, NAME).value).Some?)
      && Lookup(s', m) ==
        if word == Done && Some(m) == Get(data, NAME) && Hotp(Kind(Lookup(s, m).value))
        then Some(Ticked(Lookup(s, m).value)) else Lookup(s, m)
  {
    CalculateShape(h, s, data, p2);
    if Calculate(h, s, data, p2).0 == Done {
      var n := Get(data, NAME).value;
      var i := FindCred(s, n);
      if Hotp(Kind(s[i])) {
        TickedComplete(s[i], n);
        SetIsMapUpdate(s, i, Ticked(s[i]), n, m);
      }
    }
  }

  // ---------- runs ----------

  datatype Command = DoPut(buf: bytes, nc: nat) | DoDelete(data: bytes) | DoCalculate(data: bytes, p2: byte)

  /** The buffer has room, and the put is consistent. */
  predicate Proper(c: Command) {
    c.DoPut? ==> c.nc + HEADROOM <= |c.buf| && Consistent(c.buf, c.nc)
  }

  function Step(h: Hasher, s: seq<bytes>, c: Command): (r: (Word, bytes, seq<bytes>))
    requires h.Lawful() && Sound(s) && Proper(c)
    ensures |r.2| == |s|
  {
    match c
    case DoPut(buf, nc) => (Put(s, buf, nc).0, [], Put(s, buf, nc).1)
    case DoDelete(data) => (Delete(s, data).0, [], Delete(s, data).1)
    case DoCalculate(data, p2) => Calculate(h, s, data, p2)
  }

  /** The name a command is about. */
  function Target(c: Command): Option<bytes>
    requires Proper(c)
  {
    match c
    case DoPut(buf, nc) => if Lacking(buf, nc) then None else Some(Searched(buf, nc))
    case DoDelete(data) => Get(data, NAME)
    case DoCalculate(data, _) => Get(data, NAME)
  }

  /** Every command keeps the store sound, and touches no name but its own. */
  lemma StepKeepsOthers(h: Hasher, s: seq<bytes>, c: Command, m: bytes)
    requires h.Lawful() && Book(s) && Proper(c)
    ensures Book(Step(h, s, c).2)
    ensures Target(c) != Some(m) ==> Lookup(Step(h, s, c).2, m) == Lookup(s, m)
  {
    match c
    case DoPut(buf, nc) =>
      if Put(s, buf, nc).0 == Done {
        PutRefinesUpdate(s, buf, nc, m);
      }
    case DoDelete(data) => DeleteRefinesRemoval(s, data, m);
    case DoCalculate(data, p2) => CalculateTicks(h, s, data, p2, m);
  }

  /** The commands as steps of the store. */
  ghost function Stepper(h: Hasher): (seq<bytes>, Command) -> ((Word, bytes), seq<bytes>) {
    (s, c) =>
      if h.Lawful() && Sound(s) && Proper(c) then ((Step(h, s, c).0, Step(h, s, c).1), Step(h, s, c).2)
      else ((ExecError, []), s)
  }

  ghost function Run(h: Hasher, s: seq<bytes>, cs: seq<Command>): seq<bytes> {
    Runs(Stepper(h), s, cs)
  }

  /** From an empty store, no run of consistent commands leaves a name in two files, or a record incomplete. */
  lemma RunKeepsBook(h: Hasher, s: seq<bytes>, cs: seq<Command>)
    requires h.Lawful() && Book(s) && forall i :: 0 <= i < |cs| ==> Proper(cs[i])
    ensures Book(Run(h, s, cs))
  {
    var book := (s: seq<bytes>) => Book(s);
    forall s, c | book(s) && Proper(c)
      ensures book(Stepper(h)(s, c).1)
    {
      StepKeepsOthers(h, s, c, []);
    }
    RunsKeep(Stepper(h), c => Proper(c), book, s, cs);
  }

  // ---------- HOTP over a run ----------

  /** The command calculates a code for name n. */
  predicate Asks(c: Command, n: bytes) {
    c.DoCalculate? && Get(c.data, NAME) == Some(n)
  }

  /** No put or delete of name n. */
  predicate LeavesAlone(c: Command, n: bytes) {
    Proper(c) && (Target(c) == Some(n) ==> c.DoCalculate?)
  }

  /** The response of a successful calculate for n. */
  function Given(n: bytes): (Command, (Word, bytes)) -> Option<bytes> {
    (c: Command, o: (Word, bytes)) => if Asks(c, n) && o.0 == Done then Some(o.1) else None
  }

  ghost function Codes(h: Hasher, s: seq<bytes>, cs: seq<Command>, n: bytes): seq<bytes> {
    Outputs(Stepper(h), Given(n), s, cs)
  }

  /** An HOTP record whose moving factor is just the counter. */
  predicate Pure(f: bytes) {
    Complete(f) && Hotp(Kind(f)) && Find(f, IMF, 0).value.len == COUNTER
  }

  /** There is an HMAC of the message: the key follows a byte for type and algorithm, and one for the digits. */
  predicate Hashable(h: Hasher, key: bytes, message: bytes) {
    |key| >= 2 && 1 <= key[0] % 16 <= 3 && h.hmac(key[0] as nat % 16, key[2..], message).Some?
  }

  /**
   * The response for a message: the whole HMAC; or, truncated as in section 5.3 of RFC 4226, the 31-bit
   * number that its last nibble points at.
   */
  predicate AnswersTo(h: Hasher, key: bytes, message: bytes, truncate: bool, reply: bytes)
    requires h.Lawful()
  {
    && Hashable(h, key, message)
    && var mac := h.hmac(key[0] as nat % 16, key[2..], message).value;
       if !truncate then reply == [0x75, |mac| + 1, key[1]] + mac
       else
         var offset := mac[|mac| - 1] % 16;
         && |reply| == 7 && reply[..3] == [0x76, 5, key[1]]
         && Number(reply[3..]) == Number(mac[offset..offset + 4]) % 0x8000_0000
  }

  /** The response for counter value v is that for its eight bytes, in one of the two forms. */
  predicate Answers(h: Hasher, key: bytes, v: nat, reply: bytes)
    requires h.Lawful()
  {
    AnswersTo(h, key, BigEndian(v, COUNTER), false, reply) || AnswersTo(h, key, BigEndian(v, COUNTER), true, reply)
  }

  lemma CodeAnswers(h: Hasher, key: bytes, message: bytes, truncate: bool)
    requires h.Lawful()
    ensures Code(h, key, message, truncate).Some? <==> Hashable(h, key, message)
    ensures Hashable(h, key, message) ==>
      AnswersTo(h, key, message, truncate,
                [if truncate then 0x76 else 0x75] + Code(h, key, message, truncate).value)
  {
    if Hashable(h, key, message) {
      var mac := h.hmac(key[0] as nat % 16, key[2..], message).value;
      var reply := [if truncate then 0x76 else 0x75] + Code(h, key, message, truncate).value;
      if truncate {
        TruncationExact(mac);
        assert reply[3..] == Truncated(mac);
      }
    }
  }

  /** What a record hashes: its counter if it is for HOTP, else the challenge. */
  function Message(f: bytes, challenge: bytes): bytes
    requires Complete(f)
  {
    if Get(f, KEY).value != [] && Get(f, KEY).value[0] / 16 == 1 then Get(f, IMF).value else challenge
  }

  lemma KindIsFirst(f: bytes)
    requires Find(f, KEY, 0).Some? && Get(f, KEY).value != []
    ensures Kind(f) == Get(f, KEY).value[0]
  {
  }

  lemma CodeOfRecord(h: Hasher, f: bytes, challenge: bytes, p2: byte)
    requires h.Lawful() && Complete(f) && p2 <= 1
    ensures var key := Get(f, KEY).value;
      var code := Code(h, key, if Hotp(Kind(f)) then Get(f, IMF).value else challenge, p2 == 1);
      && (code.Some? <==> Hashable(h, key, Message(f, challenge)))
      && (code.Some? ==> AnswersTo(h, key, Message(f, challenge), p2 == 1, [RESPONSE + p2] + code.value))
  {
    var key := Get(f, KEY).value;
    if key != [] {
      KindIsFirst(f);
      CodeAnswers(h, key, Message(f, challenge), p2 == 1);
    }
  }

  /**
   * Calculate succeeds exactly for a challenge and a name that has a record whose key can be used, and
   * then answers for the record's counter or the challenge, in the form asked for.
   */
  lemma CalculateExact(h: Hasher, s: seq<bytes>, data: bytes, p2: byte)
    requires h.Lawful() && Sound(s)
    ensures var (word, reply, _) := Calculate(h, s, data, p2);
      && (word == Done <==>
            p2 <= 1 && Get(data, CHALLENGE).Some? && Get(data, NAME).Some?
            && Lookup(s, Get(data, NAME).value).Some?
            && var f := Lookup(s, Get(data, NAME).value).value;
               Hashable(h, Get(f, KEY).value, Message(f, Get(data, CHALLENGE).value)))
      && (word == Done ==>
            var f := Lookup(s, Get(data, NAME).value).value;
            AnswersTo(h, Get(f, KEY).value, Message(f, Get(data, CHALLENGE).value), p2 == 1, reply))
      && (word == IncorrectP1P2 <==> p2 > 1)
      && (word == IncorrectParams <==> p2 <= 1 && !(Get(data, CHALLENGE).Some? && Get(data, NAME).Some?))
      && (word == DataInvalid <==>
            p2 <= 1 && Get(data, CHALLENGE).Some? && Get(data, NAME).Some? && Lookup(s, Get(data, NAME).value) == None)
  {
    if p2 <= 1 && Get(data, CHALLENGE).Some? && Get(data, NAME).Some? {
      var i := FindCred(s, Get(data, NAME).value);
      if i < |s| {
        CodeOfRecord(h, s[i], Get(data, CHALLENGE).value, p2);
      }
    }
  }

  /** After k codes. */
  function Counted(f: bytes, k: nat): (r: bytes)
    requires Counts(f)
  {
    WithCounter(f, (CounterOf(f) + k) % UINT64)
  }

  lemma {:induction false} NumberBelow(s: bytes)
    ensures Number(s) < Pow256(|s|) && BigEndian(Number(s), |s|) == s
  {
    if s != [] {
      NumberBelow(s[..|s| - 1]);
      assert Number(s) / 256 == Number(s[..|s| - 1]) && Number(s) % 256 == s[|s| - 1] as int;
    }
  }

  lemma OverwriteSame(d: bytes, i: nat, n: nat)
    requires i + n <= |d|
    ensures Overwrite(d, i, d[i..i + n]) == d
  {
  }

  lemma CounterBelow(f: bytes)
    requires Counts(f)
    ensures CounterOf(f) < UINT64 && BigEndian(CounterOf(f), COUNTER) == CounterBytes(f)
  {
    HeadWidths();
    NumberBelow(CounterBytes(f));
  }

  lemma OwnCounter(f: bytes, v: nat)
    requires Counts(f) && BigEndian(v, COUNTER) == CounterBytes(f)
    ensures WithCounter(f, v) == f
  {
    OverwriteSame(f, Find(f, IMF, 0).value.start, COUNTER);
  }

  lemma CountedNone(f: bytes)
    requires Counts(f)
    ensures Counted(f, 0) == f && CounterOf(f) < UINT64
  {
    CounterBelow(f);
    OwnCounter(f, CounterOf(f));
    assert CounterOf(f) % UINT64 == CounterOf(f);
  }

  lemma CountedNext(f: bytes, k: nat)
    requires Counts(f)
    ensures Counts(Counted(f, k)) && CounterOf(Counted(f, k)) == (CounterOf(f) + k) % UINT64
    ensures Ticked(Counted(f, k)) == Counted(f, k + 1)
  {
    var v := (CounterOf(f) + k) % UINT64;
    WithCounterExact(f, v);
    NextModulo(CounterOf(f) + k);
    WithCounterTwice(f, v, (v + 1) % UINT64);
  }

  lemma NextModulo(n: nat)
    ensures (n % UINT64 + 1) % UINT64 == (n + 1) % UINT64
  {
  }

  lemma CountedKeeps(f: bytes, k: nat)
    requires Pure(f)
    ensures var r := Counted(f, k);
      Complete(r) && Kind(r) == Kind(f) && Get(r, KEY) == Get(f, KEY) && Pure(r)
      && Get(r, IMF) == Some(BigEndian((CounterOf(f) + k) % UINT64, COUNTER))
  {
    SetKeeps(f, (CounterOf(f) + k) % UINT64);
  }

  lemma SetKeeps(f: bytes, v: nat)
    requires Pure(f) && v < UINT64
    ensures var r := WithCounter(f, v);
      Complete(r) && Kind(r) == Kind(f) && Get(r, KEY) == Get(f, KEY) && Pure(r)
      && Get(r, IMF) == Some(BigEndian(v, COUNTER))
  {
    var r := WithCounter(f, v);
    WithCounterExact(f, v);
    var (key, imf) := (Find(f, KEY, 0).value, Find(f, IMF, 0).value);
    Disjoint(f, KEY, IMF, 0);
    OverwriteParts(f, imf.start, BigEndian(v, COUNTER));
    assert Kind(r) == Kind(f) by {
      if key.start < |f| {
        if key.End() + 2 <= imf.start {
          assert r[key.start] == r[..imf.start][key.start] == f[..imf.start][key.start];
        } else {
          var e := imf.start + COUNTER;
          assert r[key.start] == r[e..][key.start - e] == f[e..][key.start - e];
        }
      }
    }
  }

  lemma PureCounter(f: bytes)
    requires Pure(f)
    ensures Get(f, IMF) == Some(BigEndian(CounterOf(f), COUNTER))
  {
    NumberBelow(CounterBytes(f));
  }

  /** A successful calculate for an HOTP record answers for its counter. */
  lemma CalculateAnswers(h: Hasher, s: seq<bytes>, data: bytes, p2: byte)
    requires h.Lawful() && Sound(s) && Calculate(h, s, data, p2).0 == Done
    requires var f := Lookup(s, Get(data, NAME).value); f.Some? && Pure(f.value)
    ensures var f := Lookup(s, Get(data, NAME).value).value;
      Answers(h, Get(f, KEY).value, CounterOf(f), Calculate(h, s, data, p2).1)
  {
    var f := Lookup(s, Get(data, NAME).value).value;
    CalculateExact(h, s, data, p2);
    PureCounter(f);
    KindIsFirst(f);
  }

  lemma AskAnswers(h: Hasher, s: seq<bytes>, c: Command, n: bytes, f: bytes, k: nat)
    requires h.Lawful() && Book(s) && Asks(c, n) && Pure(f) && Lookup(s, n) == Some(Counted(f, k))
    requires Step(h, s, c).0 == Done
    ensures Answers(h, Get(f, KEY).value, (CounterOf(f) + k) % UINT64, Step(h, s, c).1)
    ensures Book(Step(h, s, c).2) && Lookup(Step(h, s, c).2, n) == Some(Counted(f, k + 1))
  {
    CountedKeeps(f, k);
    CountedNext(f, k);
    CalculateAnswers(h, s, c.data, c.p2);
    CalculateTicks(h, s, c.data, c.p2, n);
  }

  /** What is not a successful calculate for n leaves its record as it is. */
  lemma StepLeaves(h: Hasher, s: seq<bytes>, c: Command, n: bytes, f: bytes)
    requires h.Lawful() && Book(s) && LeavesAlone(c, n) && Lookup(s, n) == Some(f)
    requires !(Asks(c, n) && Step(h, s, c).0 == Done)
    ensures Lookup(Step(h, s, c).2, n) == Some(f)
  {
    if Target(c) == Some(n) {
      CalculateTicks(h, s, c.data, c.p2, n);
    } else {
      StepKeepsOthers(h, s, c, n);
    }
  }

  /** The store holds the record of n as it is after k codes. */
  ghost function HotpAt(n: bytes, f: bytes): (seq<bytes>, nat) -> bool {
    (s: seq<bytes>, k: nat) => Book(s) && Counts(f) && Lookup(s, n) == Some(Counted(f, k))
  }

  /** Code number k answers for counter value v + k. */
  ghost function CodesFrom(h: Hasher, key: bytes, v: nat): (nat, bytes) -> bool {
    (k: nat, reply: bytes) => h.Lawful() && Answers(h, key, (v + k) % UINT64, reply)
  }

  lemma AtMeans(n: bytes, f: bytes, s: seq<bytes>, k: nat)
    ensures HotpAt(n, f)(s, k) <==> Book(s) && Counts(f) && Lookup(s, n) == Some(Counted(f, k))
  {
  }

  lemma GoodMeans(h: Hasher, key: bytes, v: nat, k: nat, reply: bytes)
    ensures CodesFrom(h, key, v)(k, reply) <==> h.Lawful() && Answers(h, key, (v + k) % UINT64, reply)
  {
  }

  /** A step that gives a code, from the contracts of its parts. */
  lemma HotpGives(h: Hasher, s: seq<bytes>, n: bytes, f: bytes, k: nat, reply: bytes, s': seq<bytes>)
    requires h.Lawful() && Counts(f) && Book(s') && Lookup(s', n) == Some(Counted(f, k + 1))
    requires Get(f, KEY).Some? && Answers(h, Get(f, KEY).value, (CounterOf(f) + k) % UINT64, reply)
    ensures CodesFrom(h, Get(f, KEY).value, CounterOf(f))(k, reply) && HotpAt(n, f)(s', k + 1)
  {
    GoodMeans(h, Get(f, KEY).value, CounterOf(f), k, reply);
    AtMeans(n, f, s', k + 1);
  }

  lemma HotpStays(h: Hasher, s: seq<bytes>, c: Command, n: bytes, f: bytes, k: nat)
    requires h.Lawful() && Pure(f) && LeavesAlone(c, n) && HotpAt(n, f)(s, k)
    requires !(Asks(c, n) && Step(h, s, c).0 == Done)
    ensures HotpAt(n, f)(Step(h, s, c).2, k)
  {
    StepKeepsOthers(h, s, c, n);
    StepLeaves(h, s, c, n, Counted(f, k));
  }

  lemma StepperSteps(h: Hasher, s: seq<bytes>, c: Command)
    requires h.Lawful() && Sound(s) && Proper(c)
    ensures Stepper(h)(s, c) == ((Step(h, s, c).0, Step(h, s, c).1), Step(h, s, c).2)
  {
  }

  lemma HotpMoves(h: Hasher, s: seq<bytes>, c: Command, n: bytes, f: bytes, k: nat)
    requires h.Lawful() && Pure(f) && LeavesAlone(c, n) && HotpAt(n, f)(s, k)
    ensures Moves(Stepper(h), Given(n), HotpAt(n, f), CodesFrom(h, Get(f, KEY).value, CounterOf(f)), s, c, k)
  {
    StepperSteps(h, s, c);
    if Asks(c, n) && Step(h, s, c).0 == Done {
      AtMeans(n, f, s, k);
      AskAnswers(h, s, c, n, f, k);
      HotpGives(h, s, n, f, k, Step(h, s, c).1, Step(h, s, c).2);
    } else {
      HotpStays(h, s, c, n, f, k);
    }
  }

  function Alone(n: bytes): Command -> bool {
    c => LeavesAlone(c, n)
  }

  lemma HotpCountsOn(h: Hasher, n: bytes, f: bytes)
    requires h.Lawful() && Pure(f)
    ensures CountsOn(Stepper(h), Given(n), Alone(n), HotpAt(n, f), CodesFrom(h, Get(f, KEY).value, CounterOf(f)))
  {
    forall s, c, k: nat | HotpAt(n, f)(s, k) && Alone(n)(c)
      ensures Moves(Stepper(h), Given(n), HotpAt(n, f), CodesFrom(h, Get(f, KEY).value, CounterOf(f)), s, c, k)
    {
      HotpMoves(h, s, c, n, f, k);
    }
  }

  /** The codes answer for counter values v, v + 1, v + 2 and so on, modulo 2^64. */
  predicate Numbered(h: Hasher, key: bytes, v: nat, codes: seq<bytes>)
    requires h.Lawful()
  {
    forall j :: 0 <= j < |codes| ==> Answers(h, key, (v + j) % UINT64, codes[j])
  }

  lemma NumberedFrom(h: Hasher, key: bytes, v: nat, codes: seq<bytes>)
    requires h.Lawful() && AllGood(CodesFrom(h, key, v), 0, codes)
    ensures Numbered(h, key, v, codes)
  {
    forall j | 0 <= j < |codes|
      ensures Answers(h, key, (v + j) % UINT64, codes[j])
    {
      assert CodesFrom(h, key, v)(0 + j, codes[j]);
      GoodMeans(h, key, v, j, codes[j]);
    }
  }

  lemma CodesCount(h: Hasher, s: seq<bytes>, cs: seq<Command>, n: bytes,
                   at: (seq<bytes>, nat) -> bool, good: (nat, bytes) -> bool)
    requires CountsOn(Stepper(h), Given(n), Alone(n), at, good) && at(s, 0)
    requires forall i :: 0 <= i < |cs| ==> LeavesAlone(cs[i], n)
    ensures AllGood(good, 0, Codes(h, s, cs, n)) && at(Run(h, s, cs), |Codes(h, s, cs, n)|)
  {
    OutputsInOrder(Stepper(h), Given(n), Alone(n), at, good, s, cs, 0);
  }

  /**
   * Over any run that neither puts nor deletes name n, whatever it does with other names: the codes
   * given out for n are those of counter values v, v + 1, v + 2 and so on modulo 2^64, one for each
   * successful calculate, and the record ends as it began except for the counter.
   */
  lemma CodesInOrder(h: Hasher, s: seq<bytes>, cs: seq<Command>, n: bytes, f: bytes)
    requires h.Lawful() && Book(s) && Pure(f) && Lookup(s, n) == Some(f)
    requires forall i :: 0 <= i < |cs| ==> LeavesAlone(cs[i], n)
    ensures Numbered(h, Get(f, KEY).value, CounterOf(f), Codes(h, s, cs, n))
    ensures Lookup(Run(h, s, cs), n) == Some(Counted(f, |Codes(h, s, cs, n)|))
  {
    CountedNone(f);
    AtMeans(n, f, s, 0);
    HotpCountsOn(h, n, f);
    CodesCount(h, s, cs, n, HotpAt(n, f), CodesFrom(h, Get(f, KEY).value, CounterOf(f)));
    NumberedFrom(h, Get(f, KEY).value, CounterOf(f), Codes(h, s, cs, n));
    AtMeans(n, f, Run(h, s, cs), |Codes(h, s, cs, n)|);
  }

  /** A put of an HOTP record with its counter in at most eight bytes, or without one. */
  predicate HotpPut(buf: bytes, nc: nat) {
    && nc + HEADROOM <= |buf| && !Lacking(buf, nc) && Intact(buf, nc)
    && Get(buf[..nc], KEY).value != [] && Hotp(Get(buf[..nc], KEY).value[0])
    && (Get(buf[..nc], IMF).Some? ==> |Get(buf[..nc], IMF).value| <= COUNTER)
  }

  function SentCounter(d: bytes): nat {
    if Get(d, IMF).Some? then Number(Get(d, IMF).value) else 0
  }

  lemma CounterIsFactor(r: bytes)
    requires Get(r, IMF).Some? && |Get(r, IMF).value| == COUNTER
    ensures Counts(r) && CounterOf(r) == Number(Get(r, IMF).value)
  {
  }

  lemma RecordLengthened(buf: bytes, nc: nat)
    requires nc + HEADROOM <= |buf| && Find(buf[..nc], KEY, 0).Some? && ShortCounter(buf, nc)
    requires Hotp(buf[Find(buf[..nc], KEY, 0).value.start])
    ensures var sent := Get(buf[..nc], IMF).value;
      Get(Record(buf, nc), IMF) == Some(Fill<byte>(0, COUNTER - |sent|) + sent)
  {
    PaddedRecord(buf, nc);
  }

  /** The moving factor of the record is the one that was sent, after zeros. */
  lemma RecordFactor(buf: bytes, nc: nat)
    requires HotpPut(buf, nc)
    ensures var sent := if Get(buf[..nc], IMF).Some? then Get(buf[..nc], IMF).value else [];
      Get(Record(buf, nc), IMF) == Some(Fill<byte>(0, COUNTER - |sent|) + sent)
  {
    var d := buf[..nc];
    if Find(d, IMF, 0).None? {
      AppendedRecord(buf, nc);
      assert Fill<byte>(0, COUNTER) + [] == Fill<byte>(0, COUNTER);
    } else if Find(d, IMF, 0).value.len < COUNTER {
      RecordLengthened(buf, nc);
    } else {
      assert Fill<byte>(0, 0) + Get(d, IMF).value == Get(d, IMF).value;
    }
  }

  /** The record has an eight-byte counter, and the key that was sent. */
  lemma RecordPure(buf: bytes, nc: nat)
    requires HotpPut(buf, nc)
    ensures Pure(Record(buf, nc)) && Get(Record(buf, nc), KEY) == Get(buf[..nc], KEY)
  {
    IntactKeeps(buf, nc);
    RecordComplete(buf, nc);
    RecordFactor(buf, nc);
    KindKept(buf[..nc], Record(buf, nc));
  }

  /** The record has the counter value that was sent. */
  lemma RecordCounter(buf: bytes, nc: nat)
    requires HotpPut(buf, nc)
    ensures Counts(Record(buf, nc)) && CounterOf(Record(buf, nc)) == SentCounter(buf[..nc])
  {
    var sent := if Get(buf[..nc], IMF).Some? then Get(buf[..nc], IMF).value else [];
    RecordFactor(buf, nc);
    CounterIsFactor(Record(buf, nc));
    NumberZeros(COUNTER - |sent|, sent);
  }

  lemma PutStarts(s: seq<bytes>, buf: bytes, nc: nat) returns (f: bytes)
    requires Book(s) && HotpPut(buf, nc) && Put(s, buf, nc).0 == Done
    ensures Book(Put(s, buf, nc).1) && Lookup(Put(s, buf, nc).1, Searched(buf, nc)) == Some(f)
    ensures Pure(f) && Get(f, KEY) == Get(buf[..nc], KEY) && CounterOf(f) == SentCounter(buf[..nc])
  {
    f := Record(buf, nc);
    RecordPure(buf, nc);
    RecordCounter(buf, nc);
    IntactConsistent(buf, nc);
    PutRefinesUpdate(s, buf, nc, Searched(buf, nc));
  }

  /**
   * From the put on: an HOTP record sent with counter value v of at most eight bytes at its end, or
   * with none for zero, gives the codes for v, v + 1, ... until it is put again or deleted.
   */
  lemma CodesFromPut(h: Hasher, s: seq<bytes>, buf: bytes, nc: nat, cs: seq<Command>)
    requires h.Lawful() && Book(s) && HotpPut(buf, nc) && Put(s, buf, nc).0 == Done
    requires forall i :: 0 <= i < |cs| ==> LeavesAlone(cs[i], Searched(buf, nc))
    ensures Book(Put(s, buf, nc).1)
    ensures Numbered(h, Get(buf[..nc], KEY).value, SentCounter(buf[..nc]),
                     Codes(h, Put(s, buf, nc).1, cs, Searched(buf, nc)))
  {
    var f := PutStarts(s, buf, nc);
    CodesInOrder(h, Put(s, buf, nc).1, cs, Searched(buf, nc), f);
  }

  lemma KindKept(d: bytes, r: bytes)
    requires Kept(d, r) && Get(d, KEY).Some? && Get(d, KEY).value != []
    ensures Kind(r) == Kind(d)
  {
    assert Kind(r) == Get(r, KEY).value[0] && Kind(d) == Get(d, KEY).value[0];
  }

  // ---------- list ----------

  /** One entry of the list response: the name, after the byte that tells the kind of record. */
  function Entry(f: bytes): bytes
    requires Complete(f)
  {
    [NAME_LIST, Byte(|Get(f, NAME).value| + 1), Kind(f)] + Get(f, NAME).value
  }

  /** What a file adds to the response. */
  function Piece(f: bytes): bytes
    requires f == [] || Complete(f)
  {
    if f == [] then [] else Entry(f)
  }

  function List(s: seq<bytes>): bytes
    requires Sound(s)
  {
    if s == [] then [] else Piece(s[0]) + List(s[1..])
  }

  /** The kinds and names on record, in file order. */
  function Recorded(s: seq<bytes>): seq<(byte, bytes)>
    requires Sound(s)
  {
    if s == [] then [] else (if s[0] == [] then [] else [(Kind(s[0]), Get(s[0], NAME).value)]) + Recorded(s[1..])
  }

  /** The kinds and names that a reader of the response finds in it. */
  function Listed(d: bytes): seq<(byte, bytes)>
    decreases |d|
  {
    if Header(d, 0).None? || Header(d, 0).value.0 != NAME_LIST || Header(d, 0).value.1.len == 0 then []
    else
      var p := Header(d, 0).value.1;
      [(d[p.start], d[p.start + 1..p.End()])] + Listed(d[p.End()..])
  }

  /** The response can be read back while names are shorter than a two-byte length asks for. */
  lemma {:induction false} ListReadsBack(s: seq<bytes>)
    requires Sound(s) && forall i :: 0 <= i < |s| && s[i] != [] ==> |Get(s[i], NAME).value| < 0x7f
    ensures Listed(List(s)) == Recorded(s)
    decreases |s|
  {
    if s != [] {
      ListReadsBack(s[1..]);
      if s[0] != [] {
        EntryReads(s[0], List(s[1..]));
        assert List(s) == Entry(s[0]) + List(s[1..]);
      } else {
        assert List(s) == List(s[1..]) && Recorded(s) == Recorded(s[1..]);
      }
    }
  }

  lemma EntryReads(f: bytes, rest: bytes)
    requires Complete(f) && |Get(f, NAME).value| < 0x7f
    ensures Listed(Entry(f) + rest) == [(Kind(f), Get(f, NAME).value)] + Listed(rest)
  {
    var (d, name) := (Entry(f) + rest, Get(f, NAME).value);
    assert Header(d, 0) == Some((NAME_LIST, Place(2, |name| + 1)));
    assert d[2] == Kind(f) && d[3..3 + |name|] == name && d[3 + |name|..] == rest;
  }

  /** A response with one entry reads back exactly when the name is that short. */
  lemma EntryReadsExactly(f: bytes)
    requires Complete(f)
    ensures Listed(Entry(f)) == [(Kind(f), Get(f, NAME).value)] <==> |Get(f, NAME).value| < 0x7f
  {
    var (d, name) := (Entry(f), Get(f, NAME).value);
    if |name| < 0x7f {
      EntryReads(f, []);
      assert d + [] == d;
    } else if Header(d, 0).Some? && Header(d, 0).value.1.len > 0 {
      var p := Header(d, 0).value.1;
      assert p.len - 1 < |name|;
      assert Listed(d)[0].1 == d[p.start + 1..p.End()];
    }
  }

  lemma {:induction false} RecordedAreHeld(s: seq<bytes>, k: byte, n: bytes)
    requires Sound(s)
    ensures (k, n) in Recorded(s) <==> exists i :: 0 <= i < |s| && Holds(s[i], n) && Kind(s[i]) == k
    decreases |s|
  {
    if s != [] {
      RecordedAreHeld(s[1..], k, n);
      if Holds(s[0], n) && Kind(s[0]) == k {
        assert (k, n) == Recorded(s)[0];
      }
      if i :| 0 <= i < |s| - 1 && Holds(s[1..][i], n) && Kind(s[1..][i]) == k {
        assert Holds(s[i + 1], n);
      }
      if i :| 0 <= i < |s| && Holds(s[i], n) && Kind(s[i]) == k {
        assert i == 0 || Holds(s[1..][i - 1], n);
      }
    }
  }

  /** What is on record under a name, in a sound store. */
  lemma RecordedIsLookup(s: seq<bytes>, k: byte, n: bytes)
    requires Book(s)
    ensures (k, n) in Recorded(s) <==> Lookup(s, n).Some? && Kind(Lookup(s, n).value) == k
  {
    RecordedAreHeld(s, k, n);
    if i :| 0 <= i < |s| && Holds(s[i], n) && Kind(s[i]) == k {
      FoundAt(s, i, n);
    }
  }

  /** List gives exactly the names that have a record, each once, with the kind of its record. */
  lemma {:induction false} ListedOnce(s: seq<bytes>)
    requires Book(s)
    ensures forall k, n :: (k, n) in Recorded(s) <==> Lookup(s, n).Some? && Kind(Lookup(s, n).value) == k
    ensures forall i, j :: 0 <= i < j < |Recorded(s)| ==> Recorded(s)[i].1 != Recorded(s)[j].1
    decreases |s|
  {
    forall k, n
      ensures (k, n) in Recorded(s) <==> Lookup(s, n).Some? && Kind(Lookup(s, n).value) == k
    {
      RecordedIsLookup(s, k, n);
    }
    if s != [] {
      assert Distinct(s[1..]) by {
        forall i, j, n | 0 <= i < j < |s| - 1 && Holds(s[1..][i], n)
          ensures !Holds(s[1..][j], n)
        {
          assert Holds(s[i + 1], n);
        }
      }
      ListedOnce(s[1..]);
      if s[0] != [] {
        RestHasOther(s);
      }
    }
  }

  lemma RestHasOther(s: seq<bytes>)
    requires Book(s) && s != [] && s[0] != []
    ensures forall i :: 0 <= i < |Recorded(s[1..])| ==> Recorded(s[1..])[i].1 != Get(s[0], NAME).value
  {
    var n := Get(s[0], NAME).value;
    assert Holds(s[0], n);
    forall i | 0 <= i < |Recorded(s[1..])|
      ensures Recorded(s[1..])[i].1 != n
    {
      var (k, m) := Recorded(s[1..])[i];
      RecordedAreHeld(s[1..], k, m);
      var j :| 0 <= j < |s| - 1 && Holds(s[1..][j], m) && Kind(s[1..][j]) == k;
      assert !Holds(s[j + 1], n);
    }
  }

  // ---------- where padding does damage ----------

  /** A TOTP record named A, and an HOTP record whose counter is empty and comes before its name. */
  const FIRST: bytes := [NAME, 1, 0x41, KEY, 2, 0x21, 6]
  const SENT: bytes := [KEY, 2, 0x11, 6, IMF, 0, NAME, 6, 1, 2, 3, 4, 5, 6, NAME, 1, 0x41]
  const SPARE: bytes := [0, 0, 0, 0, 0, 0, 0, 0, 0, 0]
  /** What is stored: the counter now covers the name. */
  const STORED: bytes := [KEY, 2, 0x11, 6, IMF, 8, 0, 0, 0, 0, 0, 0, 0, 0, NAME, 1, 0x41, 0, 0, 0, 0, 0, 0, 0, 0]

  lemma FirstIsNamedA()
    ensures Get(FIRST, NAME) == Some([0x41]) && Complete(FIRST)
  {
    assert FIRST[2..3] == [0x41];
    assert Header(FIRST, 0) == Some((NAME, Place(2, 1)));
    assert Header(FIRST, 3) == Some((KEY, Place(5, 2)));
    assert Find(FIRST, KEY, 3) == Some(Place(5, 2));
  }

  lemma SentPlaces()
    ensures Find(SENT, KEY, 0) == Some(Place(2, 2)) && Find(SENT, IMF, 0) == Some(Place(6, 0))
    ensures Find(SENT, NAME, 0) == Some(Place(8, 6))
  {
    assert Header(SENT, 0) == Some((KEY, Place(2, 2)));
    assert Header(SENT, 4) == Some((IMF, Place(6, 0)));
    assert Header(SENT, 6) == Some((NAME, Place(8, 6)));
    assert Find(SENT, IMF, 4) == Some(Place(6, 0));
    assert Find(SENT, NAME, 4) == Find(SENT, NAME, 6) == Some(Place(8, 6));
  }

  lemma StoredIsNamedA()
    ensures Get(STORED, NAME) == Some([0x41])
  {
    assert STORED[16..17] == [0x41];
    assert Header(STORED, 0) == Some((KEY, Place(2, 2)));
    assert Header(STORED, 4) == Some((IMF, Place(6, 8)));
    assert Header(STORED, 14) == Some((NAME, Place(16, 1)));
    assert Find(STORED, NAME, 4) == Find(STORED, NAME, 14) == Some(Place(16, 1));
  }

  lemma SentPadded()
    ensures (SENT + SPARE)[..|SENT|] == SENT && Padded(SENT + SPARE, Place(6, 0)) == STORED + [0, 0]
  {
  }

  lemma SentIsStored()
    ensures (SENT + SPARE)[..|SENT|] == SENT && Find(SENT, NAME, 0).Some?
    ensures Record(SENT + SPARE, |SENT|) == STORED && Searched(SENT + SPARE, |SENT|) == [0, 0, 0, 0, 0, 0]
  {
    SentPlaces();
    SentPadded();
  }

  /**
   * A counter that is short and not last is padded over what follows it. Here that is the name: the
   * put looks for six zero bytes instead of 1 to 6, and leaves a second record with the name A.
   */
  lemma PaddingDuplicates()
    ensures |Only(FIRST)| == RECORDS && Book(Only(FIRST)) && Get(SENT, NAME) == Some([1, 2, 3, 4, 5, 6])
    ensures !Consistent(SENT + SPARE, |SENT|)
    ensures Put(Only(FIRST), SENT + SPARE, |SENT|) == (Done, Only(FIRST)[1 := STORED])
    ensures Only(FIRST)[0] == FIRST && Holds(FIRST, [0x41]) && Holds(STORED, [0x41])
  {
    FirstIsNamedA();
    SentPlaces();
    assert SENT[8..14] == [1, 2, 3, 4, 5, 6];
    StoredIsNamedA();
    SentIsStored();
    OnlyIsBook(FIRST);
    assert [0x41][0] == 0x41;
    PutAnyway(FIRST, SENT + SPARE, |SENT|);
  }
}
