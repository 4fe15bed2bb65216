/** The pipe as it is stored: two positions in a 513-slot array, advanced by
    `pipe_read` and `pipe_write`, which refine the steps on the queue of bytes. */
module PipeRing {
  import opened Common
  import opened Pipe

  /** One slot more than the ring can hold. */
  const DATA_SIZE: nat := PIPE_SIZE + 1

  /** The bytes between the two positions; equal positions mean an empty ring. */
  function Queued(data: string, nrp: nat, nwp: nat): string
    requires |data| == DATA_SIZE && nrp < DATA_SIZE && nwp < DATA_SIZE
  {
    if nrp <= nwp then data[nrp..nwp] else data[nrp..] + data[..nwp]
  }

  /** The ring is full when the write position is right behind the read position. */
  lemma FullRing(d: string, nrp: nat, nwp: nat)
    requires |d| == DATA_SIZE && nrp < DATA_SIZE && nwp < DATA_SIZE
    ensures |Queued(d, nrp, nwp)| <= PIPE_SIZE
    ensures |Queued(d, nrp, nwp)| == PIPE_SIZE <==> nwp + 1 == nrp || (nwp + 1 == DATA_SIZE && nrp == 0)
  {
  }

  /** A contiguous piece at the read position is the front of the queue. */
  lemma ReadTakes(d: string, nrp: nat, nwp: nat, n: nat)
    requires |d| == DATA_SIZE && nrp < DATA_SIZE && nwp < DATA_SIZE && nrp != nwp
    requires nrp + n <= if nrp < nwp then nwp else DATA_SIZE
    ensures var nrp' := if nrp + n == DATA_SIZE then 0 else nrp + n;
            d[nrp..nrp + n] + Queued(d, nrp', nwp) == Queued(d, nrp, nwp)
  {
    var e := nrp + n;
    if nrp < nwp {
      assert d[nrp..e] + d[e..nwp] == d[nrp..nwp];
    } else if e == DATA_SIZE {
      assert d[0..nwp] == d[..nwp] && d[nrp..e] == d[nrp..];
    } else {
      assert d[nrp..e] + d[e..] == d[nrp..];
      Grouped(d[nrp..e], d[e..], d[..nwp]);
    }
  }

  lemma ReadSleeps(v: View, t: Tid, count: nat, got: string)
    requires |got| < count && v.ring == [] && (got == [] || v.writers != 0)
    ensures ReadRun(v, t, count, got) == (ReaderSleeps(v, t), got, Asleep)
  {
    assert v.ring[..0] == [] && v.ring[0..] == v.ring;
    assert got + [] == got;
  }

  lemma WriteSleeps(v: View, t: Tid, src: string, sent: nat)
    requires sent < |src| && Room(v) == 0
    ensures WriteRun(v, t, src, sent) == (WriterSleeps(v, t), sent, Asleep)
  {
    assert v.ring + src[sent..sent] == v.ring;
  }

  /** Taking a piece first and going on makes no difference. */
  lemma ReadPiece(v: View, t: Tid, count: nat, got: string, piece: string, rest: string)
    requires |got| + |piece| <= count && v.ring == piece + rest
    ensures ReadRun(v.(ring := rest), t, count, got + piece) == ReadRun(v, t, count, got)
  {
    var n, m := Min(count - |got|, |v.ring|), Min(count - |got| - |piece|, |rest|);
    assert n == |piece| + m;
    assert got + piece + rest[..m] == got + v.ring[..n];
    assert rest[m..] == v.ring[n..];
  }

  lemma ReadDone(v: View, t: Tid, count: nat, got: string)
    requires |got| == count || (v.ring == [] && 0 < |got| < count && v.writers == 0)
    ensures ReadRun(v, t, count, got) == (if |got| > 0 then Broadcast(v) else v, got, Returned)
  {
    assert got + [] == got;
    assert v.ring[..0] == [] && v.ring[0..] == v.ring;
  }

  /** What the loop of `pipe_write` comes to when `sent'` bytes are queued and the ring holds `ring`. */
  function WriteEnds(v: View, t: Tid, src: string, ring: string, sent': nat): (View, nat, Outcome) {
    var v' := v.(ring := ring);
    if sent' == |src| then (if sent' > 0 then Broadcast(v') else v', sent', Returned)
    else (WriterSleeps(v', t), sent', Asleep)
  }

  lemma WriteRunEnds(v: View, t: Tid, src: string, sent: nat, k: nat)
    requires sent <= |src| && k == Min(|src| - sent, Room(v))
    ensures WriteRun(v, t, src, sent) == WriteEnds(v, t, src, v.ring + src[sent..sent + k], sent + k)
  {
  }

  /** Putting a piece first and going on makes no difference. */
  lemma WritePiece(v: View, t: Tid, src: string, sent: nat, n: nat)
    requires sent + n <= |src| && |v.ring| + n <= PIPE_SIZE
    ensures WriteRun(v.(ring := v.ring + src[sent..][..n]), t, src, sent + n) == WriteRun(v, t, src, sent)
  {
    var piece := src[sent..][..n];
    var v1, k := v.(ring := v.ring + piece), Min(|src| - sent, Room(v));
    var m: nat := k - n;
    assert Room(v1) == Room(v) - n;
    WriteRunEnds(v, t, src, sent, k);
    WriteRunEnds(v1, t, src, sent + n, m);
    Adjoining(src, sent, n, m);
    Grouped(v.ring, piece, src[sent + n..sent + n + m]);
  }

  lemma Adjoining(src: string, at: nat, n: nat, m: nat)
    requires at + n + m <= |src|
    ensures src[at..][..n] + src[at + n..at + n + m] == src[at..at + n + m]
  {
    assert src[at..][..n] == src[at..at + n];
  }

  lemma WriteDone(v: View, t: Tid, src: string)
    ensures WriteRun(v, t, src, |src|) == (if |src| > 0 then Broadcast(v) else v, |src|, Returned)
  {
    assert v.ring + src[|src|..|src|] == v.ring;
  }

  /** `d'` is `d` with `piece` written at `nwp`. */
  ghost predicate Written(d: string, d': string, nwp: nat, piece: string)
    requires |d| == DATA_SIZE && |d'| == DATA_SIZE
  {
    && nwp + |piece| <= DATA_SIZE
    && d'[..nwp] == d[..nwp] && d'[nwp..nwp + |piece|] == piece && d'[nwp + |piece|..] == d[nwp + |piece|..]
  }

  /** Writing a piece that does not reach the read position appends it to the queue. */
  lemma WriteAppends(d: string, d': string, nrp: nat, nwp: nat, piece: string)
    requires |d| == DATA_SIZE && |d'| == DATA_SIZE && nrp < DATA_SIZE && nwp < DATA_SIZE
    requires Written(d, d', nwp, piece)
    requires nrp <= nwp ==> nwp + |piece| < DATA_SIZE || nrp > 0
    requires nrp > nwp ==> nwp + |piece| < nrp
    ensures var nwp' := if nwp + |piece| == DATA_SIZE then 0 else nwp + |piece|;
            Queued(d', nrp, nwp') == Queued(d, nrp, nwp) + piece
  {
    var e := nwp + |piece|;
    if nrp <= nwp {
      assert d'[nrp..nwp] == d'[..nwp][nrp..] == d[nrp..nwp];
      assert d'[nrp..e] == d'[nrp..nwp] + d'[nwp..e];
      if e == DATA_SIZE {
        assert d'[nrp..] == d'[nrp..e] && d'[..0] == [];
      }
    } else {
      assert d'[nrp..] == d'[e..][nrp - e..] == d[nrp..];
      assert d'[..e] == d'[..nwp] + d'[nwp..e];
    }
  }

  class PipeInode {
    var nrp: nat
    var nwp: nat
    var queuedReaders: int
    var queuedWriters: int
    /** Tasks sleeping on the condition, oldest first. */
    var queue: seq<Tid>
    const data: array<char>

    ghost predicate Valid()
      reads this
    {
      data.Length == DATA_SIZE && nrp < DATA_SIZE && nwp < DATA_SIZE
    }

    ghost function Shown(): View
      reads this, data
      requires Valid()
    {
      View(Queued(data[..], nrp, nwp), queuedReaders, queuedWriters, queue)
    }

    constructor ()
      ensures Valid() && fresh(data) && Shown() == Pipe.Init.v
    {
      data := new char[DATA_SIZE];
      nrp, nwp, queuedReaders, queuedWriters, queue := 0, 0, 0, 0, [];
    }

    method Broadcast()
      modifies this`queue
      ensures queue == []
    {
      while queue != []
        decreases |queue|
      {
        queue := queue[1..];
      }
    }

    method SleepReading(t: Tid)
      requires Valid()
      modifies this`queuedReaders, this`queue
      ensures Valid() && Shown() == ReaderSleeps(old(Shown()), t)
    {
      queuedReaders := queuedReaders + 1;
      if queuedWriters > 0 {
        Broadcast();
      }
      queue := queue + [t];
    }

    method SleepWriting(t: Tid)
      requires Valid()
      modifies this`queuedWriters, this`queue
      ensures Valid() && Shown() == WriterSleeps(old(Shown()), t)
    {
      queuedWriters := queuedWriters + 1;
      if queuedReaders > 0 {
        Broadcast();
      }
      queue := queue + [t];
    }

    /** Copies one contiguous piece out of a ring that is not empty. */
    method TakePiece(left: nat) returns (piece: string)
      requires Valid() && left > 0 && nrp != nwp
      modifies this`nrp
      ensures Valid() && 0 < |piece| <= left
      ensures piece + Queued(data[..], nrp, nwp) == old(Queued(data[..], nrp, nwp))
    {
      var n;
      if nrp < nwp {
        n := Min(left, nwp - nrp);
      } else {
        n := Min(left, DATA_SIZE - nrp);
      }
      piece := data[nrp..nrp + n];
      assert piece == data[..][nrp..nrp + n];
      ReadTakes(data[..], nrp, nwp, n);
      nrp := nrp + n;
      if nrp == DATA_SIZE {
        nrp := 0;
      }
    }

    method Copy(src: string, n: nat)
      requires Valid() && n <= |src| && nwp + n <= DATA_SIZE
      modifies data
      ensures Written(old(data[..]), data[..], nwp, src[..n])
    {
      forall i | 0 <= i < n {
        data[nwp + i] := src[i];
      }
    }

    /** Copies one contiguous piece into a ring that is not full. */
    method PutPiece(src: string) returns (n: nat)
      requires Valid() && src != [] && |Queued(data[..], nrp, nwp)| < PIPE_SIZE
      modifies this`nwp, data
      ensures Valid() && 0 < n <= |src|
      ensures Queued(data[..], nrp, nwp) == old(Queued(data[..], nrp, nwp)) + src[..n]
      ensures |Queued(data[..], nrp, nwp)| <= PIPE_SIZE
    {
      if nrp <= nwp {
        n := Min(|src|, DATA_SIZE - nwp);
        if nwp + n == DATA_SIZE && nrp == 0 {
          n := n - 1;
        }
      } else {
        n := Min(|src|, nrp - nwp - 1);
      }
      Copy(src, n);
      WriteAppends(old(data[..]), data[..], nrp, nwp, src[..n]);
      nwp := nwp + n;
      if nwp == DATA_SIZE {
        nwp := 0;
      }
    }

    /** `pipe_read` by task `t`, from the head of its loop until it returns or sleeps. */
    method Read(t: Tid, count: nat, got0: string) returns (got: string, out: Outcome)
      requires Valid() && |got0| <= count
      modifies this
      ensures Valid()
      ensures (Shown(), got, out) == ReadRun(old(Shown()), t, count, got0)
    {
      got := got0;
      while |got| < count
        invariant Valid() && |got| <= count
        invariant ReadRun(Shown(), t, count, got) == ReadRun(old(Shown()), t, count, got0)
        decreases count - |got|
      {
        if nrp == nwp {
          if |got| > 0 && queuedWriters == 0 {
            break;
          }
          ReadSleeps(Shown(), t, count, got);
          SleepReading(t);
          return got, Asleep;
        }
        ghost var v := Shown();
        var piece := TakePiece(count - |got|);
        ReadPiece(v, t, count, got, piece, Queued(data[..], nrp, nwp));
        got := got + piece;
      }
      ReadDone(Shown(), t, count, got);
      if |got| > 0 {
        Broadcast();
      }
      out := Returned;
    }

    /** One round of the loop of `pipe_write` while the ring is not full. */
    method PutOnce(t: Tid, src: string, sent: nat) returns (sent': nat)
      requires Valid() && sent < |src| && |Queued(data[..], nrp, nwp)| < PIPE_SIZE
      modifies this`nwp, data
      ensures Valid() && sent < sent' <= |src|
      ensures WriteRun(Shown(), t, src, sent') == WriteRun(old(Shown()), t, src, sent)
    {
      var n := PutPiece(src[sent..]);
      WritePiece(old(Shown()), t, src, sent, n);
      sent' := sent + n;
    }

    /** `pipe_write` by task `t`, from the head of its loop until it returns or sleeps. */
    method Write(t: Tid, src: string, sent0: nat) returns (sent: nat, out: Outcome)
      requires Valid() && sent0 <= |src|
      modifies this, data
      ensures Valid()
      ensures (Shown(), sent, out) == WriteRun(old(Shown()), t, src, sent0)
    {
      sent := sent0;
      while sent < |src|
        invariant Valid() && sent <= |src|
        invariant WriteRun(Shown(), t, src, sent) == WriteRun(old(Shown()), t, src, sent0)
        decreases |src| - sent
      {
        FullRing(data[..], nrp, nwp);
        if nwp + 1 == nrp || (nwp + 1 == DATA_SIZE && nrp == 0) {
          WriteSleeps(Shown(), t, src, sent);
          SleepWriting(t);
          return sent, Asleep;
        }
        sent := PutOnce(t, src, sent);
      }
      WriteDone(Shown(), t, src);
      if sent > 0 {
        Broadcast();
      }
      out := Returned;
    }

    /** A woken reader goes on from where it slept. */
    method ResumeRead(t: Tid, count: nat, got0: string) returns (got: string, out: Outcome)
      requires Valid() && |got0| <= count
      modifies this
      ensures Valid()
      ensures (Shown(), got, out) == ReadRun(old(Shown().(readers := queuedReaders - 1)), t, count, got0)
    {
      queuedReaders := queuedReaders - 1;
      got, out := Read(t, count, got0);
    }

    /** A woken writer goes on from where it slept. */
    method ResumeWrite(t: Tid, src: string, sent0: nat) returns (sent: nat, out: Outcome)
      requires Valid() && sent0 <= |src|
      modifies this, data
      ensures Valid()
      ensures (Shown(), sent, out) == WriteRun(old(Shown().(writers := queuedWriters - 1)), t, src, sent0)
    {
      queuedWriters := queuedWriters - 1;
      sent, out := Write(t, src, sent0);
    }
  }
}
