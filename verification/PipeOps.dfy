/** All calls on one pipe as they run: each task's call goes on in the inode from the bytes that
    it has moved so far, which is what its locals hold while it sleeps. */
module PipeOps {
  import opened Common
  import opened Pipe
  import opened PipeRing

  class PipeCallers {
    const inode: PipeInode
    /** The locals of the calls that sleep. */
    var calls: map<Tid, Call>
    var done: seq<Return>
    ghost var taken: string
    ghost var put: string

    ghost predicate Valid()
      reads this, inode
    {
      inode.Valid()
    }

    ghost function State(): Sys
      reads this, inode, inode.data
      requires Valid()
    {
      Sys(inode.Shown(), calls, taken, put, done)
    }

    constructor ()
      ensures Valid() && fresh(inode) && fresh(inode.data) && State() == Init
    {
      inode := new PipeInode();
      calls, done, taken, put := map[], [], "", "";
    }

    /** A read by `t` that has `got` so far has run until it returned or went to sleep. */
    method ReadEnds(t: Tid, count: nat, ghost got: string, got': string, out: Outcome)
      requires |got| <= |got'| <= count && (out == Asleep ==> |got'| < count)
      modifies this
      ensures calls == if out == Asleep then old(calls)[t := ReadCall(count, got')] else old(calls) - {t}
      ensures done == if out == Asleep then old(done) else old(done) + [ReadReturn(t, count, got')]
      ensures taken == old(taken) + got'[|got|..] && put == old(put)
    {
      taken := taken + got'[|got|..];
      if out == Asleep {
        calls := calls[t := ReadCall(count, got')];
      } else {
        calls := calls - {t};
        done := done + [ReadReturn(t, count, got')];
      }
    }

    method WriteEnds(t: Tid, src: string, ghost sent: nat, sent': nat, out: Outcome)
      requires sent <= sent' <= |src| && (out == Asleep ==> sent' < |src|)
      modifies this
      ensures calls == if out == Asleep then old(calls)[t := WriteCall(src, sent')] else old(calls) - {t}
      ensures done == if out == Asleep then old(done) else old(done) + [WriteReturn(t, src, sent')]
      ensures put == old(put) + src[sent..sent'] && taken == old(taken)
    {
      put := put + src[sent..sent'];
      if out == Asleep {
        calls := calls[t := WriteCall(src, sent')];
      } else {
        calls := calls - {t};
        done := done + [WriteReturn(t, src, sent')];
      }
    }

    method Read(t: Tid, count: nat)
      requires Valid() && Enabled(State(), Step.Read(t, count))
      modifies this, inode, inode.data
      ensures Valid() && State() == Next(old(State()), Step.Read(t, count))
    {
      var got, out := inode.Read(t, count, "");
      ReadEnds(t, count, "", got, out);
    }

    method Write(t: Tid, src: string)
      requires Valid() && Enabled(State(), Step.Write(t, src))
      modifies this, inode, inode.data
      ensures Valid() && State() == Next(old(State()), Step.Write(t, src))
    {
      var sent, out := inode.Write(t, src, 0);
      WriteEnds(t, src, 0, sent, out);
    }

    /** A task that was woken goes on with its call. */
    method Resume(t: Tid)
      requires Valid() && Enabled(State(), Step.Resume(t))
      modifies this, inode, inode.data
      ensures Valid() && State() == Next(old(State()), Step.Resume(t))
    {
      match calls[t] {
        case ReadCall(count, got0) =>
          var got, out := inode.ResumeRead(t, count, got0);
          ReadEnds(t, count, got0, got, out);
        case WriteCall(src, sent0) =>
          var sent, out := inode.ResumeWrite(t, src, sent0);
          WriteEnds(t, src, sent0, sent, out);
      }
    }
  }
}
