/** The feature report callbacks over the two frame buffers that they fill and drain. */
module OtpKeyboard {
  import opened Bytes
  import opened Crc16
  import opened OtpLink

  /** The buffers and counters of the keyboard interface. */
  class Keyboard {
    const frameRx: array<bv8>
    const frameTx: array<bv8>
    var unsent: nat
    var currSeq: byte
    var expSeq: byte

    ghost function State(): Link
      reads this, frameRx, frameTx
    {
      Link(frameRx[..], frameTx[..], unsent, currSeq, expSeq)
    }

    ghost predicate Ok()
      reads this, frameRx, frameTx
    {
      frameRx != frameTx && Sound(State())
    }

    constructor ()
      ensures Ok() && State() == Link(Fill<bv8>(0, FRAME), Fill<bv8>(0, FRAME), 0, 0, 0)
    {
      frameRx := new bv8[FRAME](_ => 0);
      frameTx := new bv8[FRAME](_ => 0);
      unsent, currSeq, expSeq := 0, 0, 0;
    }

    /** `memcpy` of d to offset i. */
    method Copy(a: array<bv8>, i: nat, d: octets)
      requires i + |d| <= a.Length
      modifies a
      ensures a[..] == Overwrite(old(a[..]), i, d)
    {
      forall k | 0 <= k < |d| {
        a[i + k] := d[k];
      }
    }

    /** `memset` to zero. */
    method Wipe(a: array<bv8>)
      modifies a
      ensures a[..] == Fill<bv8>(0, a.Length)
    {
      forall k | 0 <= k < a.Length {
        a[k] := 0;
      }
    }

    method SendFrame(n: nat)
      requires Ok() && n + 2 <= FRAME
      modifies this, frameTx
      ensures Ok() && State() == Send(old(State()), n)
    {
      var crc := CalculateCrc(frameTx[..n]);
      Copy(frameTx, n, LittleEndian16(!crc));
      unsent := n + 2;
      expSeq := unsent / 7;
      if unsent % 7 != 0 {
        expSeq := expSeq + 1;
      }
      currSeq := 0;
    }

    method GetReport() returns (reply: Reply)
      requires Ok()
      modifies this
      ensures Ok() && (reply, State()) == Poll(old(State()))
    {
      if unsent > 0 {
        var seqNo := currSeq;
        var k := Min(7, unsent);
        currSeq := currSeq + 1;
        reply := Sent(Report(frameTx[7 * seqNo..7 * seqNo + k] + Fill<bv8>(0, 7 - k), Tag(seqNo)));
        unsent := unsent - k;
      } else if currSeq == expSeq && expSeq > 0 {
        reply := Sent(Report(Fill<bv8>(0, 7), 0x40));
        currSeq, expSeq := 0, 0;
      } else {
        reply := StatusPage;
      }
    }

    method SetReport(r: Report, app: Request -> Option<octets>)
      requires Ok() && |r.payload| == CHUNK && Fits(app)
      modifies this, frameRx, frameTx
      ensures Ok() && State() == Serve(old(State()), r, app)
    {
      if r.tag == 0xFF {
        unsent, currSeq, expSeq := 0, 0, 0;
        Wipe(frameTx);
      } else if r.tag >= 0x80 && r.tag % 32 < 10 {
        var rseq := r.tag % 32;
        Receive(r.payload, rseq);
        if rseq == 9 {
          Dispatch(app);
        }
      }
    }

    method Receive(payload: octets, rseq: nat)
      requires Ok() && |payload| == CHUNK && rseq < 10
      modifies frameRx
      ensures Ok()
      ensures var rx := if rseq == 0 then Fill<bv8>(0, FRAME) else old(frameRx[..]);
        State() == old(State()).(rx := Overwrite(rx, 7 * rseq, payload))
    {
      if rseq == 0 {
        Wipe(frameRx);
      }
      Copy(frameRx, 7 * rseq, payload);
    }

    /** Passes on the request in the buffer if its checksum fits. */
    method Dispatch(app: Request -> Option<octets>)
      requires Ok() && Fits(app)
      modifies this, frameTx
      ensures Ok()
      ensures State() == if Valid(frameRx[..]) then Forward(old(State()), Pending(frameRx[..]), app) else old(State())
    {
      var crc := CalculateCrc(frameRx[..64]);
      if crc == Word(frameRx[65], frameRx[66]) {
        var answer := app(Request(frameRx[64], frameRx[..64]));
        if answer.Some? {
          Copy(frameTx, 0, answer.value);
          SendFrame(|answer.value|);
        }
      }
    }
  }
}
