/**
 Buffered channel I/O of bigstrings. The kernel answers each readv or writev as it
 likes: a script holds its answers, and the calls are correct for every script.
 */
module Channel {
  import opened BngDigit
  import opened Digits

  newtype Byte = n: int | 0 <= n < 256

  datatype Errno = EINTR | EAGAIN | EWOULDBLOCK | EOTHER

  /** What the kernel does with a call: transfers up to so many bytes, or fails. */
  datatype Answer = Transfer(limit: nat) | Error(errno: Errno)

  /** How a call ends; Pending when the kernel has not answered yet. */
  datatype Outcome = Done(k: nat) | IOError(k: nat) | EndOfFile(k: nat) | Pending

  /** Answers that end an output: no interruption, and no refusal of more than one byte. */
  predicate EndsOutput(a: Answer, offered: nat) {
    a.Error? && a.errno != EINTR && (offered > 1 ==> a.errno == EOTHER)
  }

  /** Errors that end an input. */
  predicate EndsInput(a: Answer) { a.Error? && a.errno != EINTR }

  /** A refusal of bytes that would have to wait. */
  predicate Refusal(a: Answer) { a == Error(EAGAIN) || a == Error(EWOULDBLOCK) }

  /** Which errors end a call: interruptions never, and refusals an output only of a single byte. */
  lemma ErrorsThatEnd(a: Answer, offered: nat)
    ensures EndsInput(a) <==> a in {Error(EAGAIN), Error(EWOULDBLOCK), Error(EOTHER)}
    ensures EndsOutput(a, offered) <==>
            a == Error(EOTHER) || (offered <= 1 && a in {Error(EAGAIN), Error(EWOULDBLOCK)})
    ensures Refusal(a) <==> a in {Error(EAGAIN), Error(EWOULDBLOCK)}
  {
    if a.Error? {
      assert a == Error(a.errno);
      match a.errno
      case EINTR =>
      case EAGAIN =>
      case EWOULDBLOCK =>
      case EOTHER =>
    }
  }

  /** Why a call goes on: too little has been transferred, or no call has been answered but by errors. */
  ghost predicate GoesOn(moved: nat, needed: nat, earlier: seq<Answer>) {
    moved < needed || forall i :: 0 <= i < |earlier| ==> earlier[i].Error?
  }

  /**
   How an output has been conducted, of whose bytes moved are sent, the last of them by the
   last writev: no answer before the last was to end it, each writev was needed, it was
   offered all bytes left unless some had been refused, and a single byte just after they had.
   */
  ghost predicate Conducted(taken: seq<Answer>, moved: nat, last: nat, offered: nat, needed: nat, total: nat) {
    |taken| > 0 ==>
      var earlier := taken[..|taken| - 1];
      last <= moved && GoesOn(moved - last, needed, earlier) && Error(EOTHER) !in earlier &&
      ((forall i :: 0 <= i < |earlier| ==> !Refusal(earlier[i])) ==> offered + (moved - last) == total) &&
      (|earlier| > 0 && Refusal(earlier[|earlier| - 1]) ==> offered == 1)
  }

  /** No answer ends an input. */
  ghost predicate Continues(taken: seq<Answer>) { forall i :: 0 <= i < |taken| ==> !EndsInput(taken[i]) }

  /**
   How an input has been conducted: no answer before the last was to end it, each readv was
   needed, and was asked for all there is room for.
   */
  ghost predicate Supplied(taken: seq<Answer>, moved: nat, last: nat, asked: nat, needed: nat, room: nat) {
    |taken| > 0 ==>
      var earlier := taken[..|taken| - 1];
      last <= moved && GoesOn(moved - last, needed, earlier) && Continues(earlier) && asked + (moved - last) == room
  }

  function Min(a: nat, b: nat): nat { if a < b then a else b }

  /** The file behind an output channel. */
  class Sink {
    var written: seq<Byte>
    var script: seq<Answer>
    // How many bytes the last call offered, and how many were taken.
    ghost var offered: nat
    ghost var took: nat

    // Some prefix of the two areas in order, or an error.
    method Writev(areas: seq<Byte>) returns (a: Answer)
      requires |script| > 0
      modifies this
      ensures script == old(script)[1..] && offered == |areas| && took == |written| - |old(written)|
      ensures a == old(script)[0] || (a.Transfer? && old(script)[0].Transfer?)
      ensures a.Error? ==> written == old(written)
      ensures a.Transfer? ==> a.limit <= |areas| && written == old(written) + areas[..a.limit]
    {
      a := script[0];
      script := script[1..];
      offered, took := |areas|, 0;
      if a.Transfer? {
        a := Transfer(Min(a.limit, |areas|));
        took := a.limit;
        written := written + areas[..a.limit];
      }
    }
  }

  /** The file behind an input channel: the bytes still to be read. */
  class Source {
    var coming: seq<Byte>
    var script: seq<Answer>
    // How many bytes the last call was asked for, and how many it gave.
    ghost var asked: nat
    ghost var given: nat

    method Readv(room: nat) returns (a: Answer, data: seq<Byte>)
      requires |script| > 0
      modifies this
      ensures script == old(script)[1..] && asked == room && given == |data|
      ensures given == |old(coming)| - |coming|
      ensures a == old(script)[0] || (a.Transfer? && old(script)[0].Transfer?)
      ensures a.Error? ==> coming == old(coming)
      ensures a.Transfer? ==> a.limit <= room && a.limit == |data| && old(coming) == data + coming
    {
      a := script[0];
      script := script[1..];
      data := [];
      if a.Transfer? {
        a := Transfer(Min(Min(a.limit, room), |coming|));
        data := coming[..a.limit];
        coming := coming[a.limit..];
      }
      asked, given := room, |data|;
    }
  }

  class Channel {
    var buff: array<Byte>
    var curr: nat
    var max: nat
    var offset: int

    ghost predicate Valid()
      reads this
    {
      curr <= buff.Length && max <= buff.Length
    }

    /** Output: the bytes not yet sent. */
    ghost function Unsent(): seq<Byte>
      requires Valid()
      reads this, buff
    {
      buff[..curr]
    }

    /** Input: the bytes read ahead. */
    ghost function Ahead(): seq<Byte>
      requires Valid() && curr <= max
      reads this, buff
    {
      buff[curr..max]
    }

    /**
     Sends len bytes of the bigstring from pos on, through the buffer. Whatever the
     kernel does, what was sent and what is left in the buffer are the old buffer and
     the first k bytes, no byte lost or sent twice. Data that fits is only buffered;
     otherwise the buffer is sent too, and no more is written once that and min_len bytes
     are. An error ends it exactly when it is neither an interruption nor a refusal of more
     than one byte.
     */
    method Output(minLen: nat, sink: Sink, bstr: array<Byte>, pos: nat, len: nat)
      returns (r: Outcome, ghost taken: seq<Answer>)
      requires Valid() && minLen <= len && pos + len <= bstr.Length && bstr != buff
      modifies this, buff, sink
      ensures Valid() && buff == old(buff)
      ensures !r.EndOfFile?
      ensures r.Done? ==> minLen <= r.k
      ensures r.Done? || r.IOError? ==>
                r.k <= len && sink.written + Unsent() == old(sink.written) + old(Unsent()) + bstr[pos..pos + r.k]
      ensures r.Pending? ==>
                sink.script == [] && old(sink.written) <= sink.written <=
                old(sink.written) + old(Unsent()) + bstr[pos..pos + len]
      ensures old(sink.script) == taken + sink.script
      ensures r.IOError? <==> |taken| > 0 && EndsOutput(taken[|taken| - 1], sink.offered)
      ensures offset - old(offset) == |sink.written| - |old(sink.written)| >= 0
      ensures r.Done? && taken == [] <==> len <= buff.Length - |old(Unsent())|
      ensures r.Done? && taken == [] ==>
                r == Done(len) && Unsent() == old(Unsent()) + bstr[pos..pos + len] && sink.written == old(sink.written)
      ensures r.Done? && taken != [] ==> taken[|taken| - 1].Transfer? && Unsent() == []
      ensures r.IOError? ==> Unsent() == old(Unsent())[Min(|sink.written| - |old(sink.written)|, |old(Unsent())|)..]
      ensures r.Pending? ==> Unsent() == old(Unsent()) &&
                             GoesOn(|sink.written| - |old(sink.written)|, |old(Unsent())| + minLen, taken)
      ensures Conducted(taken, |sink.written| - |old(sink.written)|, sink.took, sink.offered,
                        |old(Unsent())| + minLen, |old(Unsent())| + len)
    {
      hide EndsOutput, GoesOn;
      if len <= buff.Length - curr {
        forall i | 0 <= i < len { buff[curr + i] := bstr[pos + i]; }
        assert buff[..curr + len] == old(Unsent()) + bstr[pos..pos + len];
        curr := curr + len;
        return Done(len), [];
      }
      r, taken := Drain(minLen, sink, bstr, pos, len);
      if r.Done? || r.IOError? {
        assert bstr[pos..pos + len][..r.k] == bstr[pos..pos + r.k];
      }
    }

    /** The buffer cannot store all data: writev until enough has gone. */
    method Drain(minLen: nat, sink: Sink, bstr: array<Byte>, pos: nat, len: nat)
      returns (r: Outcome, ghost taken: seq<Answer>)
      requires Valid() && minLen <= len && 0 < len && pos + len <= bstr.Length && bstr != buff
      modifies this, buff, sink
      ensures Valid() && buff == old(buff)
      ensures !r.Pending? ==>
                taken != [] && Ended(r, taken[|taken| - 1], sink.written, Unsent(), old(sink.written), old(Unsent()),
                                     bstr[pos..pos + len], minLen)
      ensures r.Pending? ==>
                sink.script == [] && Unsent() == old(Unsent()) && old(sink.written) <= sink.written <=
                old(sink.written) + old(Unsent()) + bstr[pos..pos + len]
      ensures r.IOError? <==> |taken| > 0 && EndsOutput(taken[|taken| - 1], sink.offered)
      ensures old(sink.script) == taken + sink.script
      ensures offset - old(offset) == |sink.written| - |old(sink.written)| >= 0
      ensures r.Pending? ==> GoesOn(|sink.written| - |old(sink.written)|, |old(Unsent())| + minLen, taken)
      ensures Conducted(taken, |sink.written| - |old(sink.written)|, sink.took, sink.offered,
                        |old(Unsent())| + minLen, |old(Unsent())| + len)
    {
      hide Sent, GoesOn, Conducted, Ready, EndsOutput, Ended, Follows, Following;
      ghost var held, data, before := buff[..curr], bstr[pos..pos + len], sink.written;
      ghost var needed := |held| + minLen;
      NothingSent(before, held, data);
      var v := Iovecs(0, curr, curr, 0, len, len);
      r, taken := Pending, [];
      ghost var script := sink.script;
      NothingYet([], script);
      StartReady(v, needed, sink.took, sink.offered, |held| + len);
      while r.Pending? && |sink.script| > 0
        invariant Valid() && buff == old(buff) && Following(taken, sink.script, script)
        invariant r.Pending? ==>
          Unsent() == held && InOrder(v, |held|, len) && Sent(sink.written, before, held, data, Count(v)) &&
          Ready(v, taken, needed) && |sink.written| - |before| == Count(v)
        invariant !r.Pending? ==>
          taken != [] && Ended(r, taken[|taken| - 1], sink.written, Unsent(), before, held, data, minLen)
        invariant offset - old(offset) == |sink.written| - |before| >= 0
        invariant r.IOError? <==> |taken| > 0 && EndsOutput(taken[|taken| - 1], sink.offered)
        invariant Conducted(taken, |sink.written| - |before|, sink.took, sink.offered, needed, |held| + len)
        decreases |sink.script|
      {
        ghost var earlier, u, a := taken, v, sink.script[0];
        TakeOne(taken, sink.script, script);
        taken := taken + [a];
        v, r := Attempt(minLen, sink, bstr, pos, len, v, before);
        Conduct(u, earlier, a, |held|, len, needed, sink.took, sink.offered);
        if r.Pending? {
          StillReady(u, earlier, a, v, needed);
        }
      }
      FollowingIs(taken, sink.script, script);
      if r.Pending? {
        SentCount(sink.written, before, held, data, Count(v));
        ReadyGoesOn(v, taken, needed);
      }
    }

    /**
     One writev and what is done about its answer; the loop goes on while Pending. The same
     areas are offered again after an interruption, and one byte after a refusal of more.
     */
    method Attempt(minLen: nat, sink: Sink, bstr: array<Byte>, pos: nat, len: nat, v: Iovecs, ghost before: seq<Byte>)
      returns (v': Iovecs, r: Outcome)
      requires Valid() && minLen <= len && 0 < len && pos + len <= bstr.Length && bstr != buff
      requires |sink.script| > 0 && InOrder(v, curr, len)
      requires Sent(sink.written, before, buff[..curr], bstr[pos..pos + len], Count(v))
      modifies this, buff, sink
      ensures Valid() && buff == old(buff) && sink.script == old(sink.script)[1..]
      ensures r.Pending? ==>
                Unsent() == old(Unsent()) && InOrder(v', curr, len) &&
                Sent(sink.written, before, Unsent(), bstr[pos..pos + len], Count(v')) &&
                Count(v') == Count(v) + sink.took && Follows(v, old(sink.script)[0], v', curr + minLen)
      ensures !r.Pending? ==>
                Ended(r, old(sink.script)[0], sink.written, Unsent(), before, old(Unsent()), bstr[pos..pos + len],
                      minLen)
      ensures offset - old(offset) == |sink.written| - |old(sink.written)| == sink.took
      ensures old(sink.script)[0].Error? ==> sink.took == 0
      ensures r.IOError? <==> EndsOutput(old(sink.script)[0], sink.offered)
      ensures sink.offered == v.buffIov + v.bstrIov
    {
      hide Sent, Ended, Follows;
      ghost var held, data, w, answer := buff[..curr], bstr[pos..pos + len], sink.written, sink.script[0];
      var areas := Areas(bstr, pos, len, v);
      var a := sink.Writev(areas);
      if a.Error? {
        v', r := Refused(a.errno, v, minLen, len);
        if r.IOError? {
          EndsAfterError(w, before, held, data, v, answer, minLen);
        }
        return;
      }
      var n: nat := a.limit;
      offset := offset + n;
      SentMore(w, before, held, data, areas, v, n);
      v', r := Advance(v, n, minLen, len, curr);
      if r.Done? {
        EndsWithEnough(sink.written, before, held, data, r.k, answer, minLen);
        curr := 0;
      } else {
        FollowsTransfer(v, answer, v', |held| + minLen);
      }
    }

    // What is done about an error.
    method Refused(errno: Errno, v: Iovecs, minLen: nat, len: nat) returns (v': Iovecs, r: Outcome)
      requires Valid() && InOrder(v, curr, len)
      modifies this`curr, buff
      ensures Valid() && (r.Pending? || r.IOError?)
      ensures r.IOError? <==> EndsOutput(Error(errno), v.buffIov + v.bstrIov)
      ensures r.IOError? ==> r.k == v.bstrBase && Unsent() == old(Unsent())[v.buffBase..]
      ensures r.Pending? ==> curr == old(curr) && Unsent() == old(Unsent()) && InOrder(v', curr, len)
      ensures r.Pending? ==> Count(v') == Count(v) && Follows(v, Error(errno), v', curr + minLen)
    {
      r := Pending;
      if errno == EINTR {
        v' := v;
      } else if (errno == EAGAIN || errno == EWOULDBLOCK) && v.buffIov + v.bstrIov > 1 {
        v' := if v.buffLen != 0 then v.(buffIov := 1, bstrIov := 0) else v.(bstrIov := 1);
      } else {
        v' := v;
        KeepRest(v.buffBase, v.buffLen);
        r := IOError(v.bstrBase);
      }
    }

    /**
     Receives at least minLen of the len bytes asked for, first from the buffer, then
     from the file, reading ahead into the buffer. At the end the bytes received, those
     in the buffer and those still to come are the old ones, in order, and nothing else
     in the bigstring has changed. The file is asked unless the buffer has all of at least
     one byte, for all there is room for, and no more once min_len bytes have come. An error
     ends it exactly when it is no interruption, and so does a readv that gives nothing.
     Positions are addresses, the bigstring at start: min_len wraps when the buffer gave more.
     */
    method Input(minLen: nat, source: Source, bstr: array<Byte>, pos: nat, len: nat, start: nat, w: WordBits)
      returns (r: Outcome, ghost got: seq<Byte>, ghost taken: seq<Answer>)
      requires Valid() && curr <= max && minLen <= len && pos + len <= bstr.Length && bstr != buff
      requires start + len + buff.Length < Base(w)
      modifies this, buff, bstr, source
      ensures Valid() && curr <= max && buff == old(buff)
      ensures |got| <= len && bstr[..] == Overlay(old(bstr[..]), pos, got)
      ensures r.Pending? ==> source.script == [] && got + source.coming == old(Ahead()) + old(source.coming)
      ensures !r.Pending? ==> r.k == |got| && got + Ahead() + source.coming == old(Ahead()) + old(source.coming)
      ensures r.Done? ==> minLen <= r.k
      ensures offset - old(offset) == |old(source.coming)| - |source.coming|
      ensures old(source.script) == taken + source.script
      ensures r.IOError? <==> |taken| > 0 && EndsInput(taken[|taken| - 1])
      ensures r.EndOfFile? <==> |taken| > 0 && taken[|taken| - 1].Transfer? && source.given == 0 && len > 0
      ensures r.Done? && taken == [] <==> old(Ahead()) != [] && len <= |old(Ahead())|
      ensures r.Done? && taken == [] ==> r == Done(len) && source.coming == old(source.coming)
      ensures r.Done? && taken != [] ==> taken[|taken| - 1].Transfer?
      ensures r.IOError? || r.EndOfFile? ==> Ahead() == []
      ensures |source.coming| <= |old(source.coming)|
      ensures var came := |old(Ahead())| + |old(source.coming)| - |source.coming|;
              (r.Pending? || taken != [] ==> |got| == Min(len, came)) &&
              (r.Pending? ==> GoesOn(came, minLen, taken)) &&
              Supplied(taken, came, source.given, source.asked, minLen, len + buff.Length)
    {
      hide Base, Wrap, Overlay, EndsInput, GoesOn, Supplied, Continues;
      var p: nat, min: nat := start, minLen;
      AddressOfMin(minLen, start, 0, w);
      var ready, all;
      ready, all, got := TakeAhead(bstr, pos, len);
      if all {
        NoneSupplied(|old(Ahead())|, source.given, source.asked, minLen, len + buff.Length);
        return Done(len), got, [];
      }
      if ready != 0 {
        p := p + ready;
        min := Wrap(min as int - ready, w);
        AddressOfMin(minLen, start, ready, w);
      }
      ghost var more;
      r, more, taken := Fill(Wrap(min + p, w), source, bstr, pos, len, start, p);
      OverlayTwice(old(bstr[..]), pos, got, more);
      AppendAssoc(got, more, if r.Pending? then [] else Ahead(), source.coming);
      got := got + more;
    }

    // What the buffer can give, and whether that is all that was asked for.
    method TakeAhead(bstr: array<Byte>, pos: nat, len: nat) returns (ready: nat, all: bool, ghost got: seq<Byte>)
      requires Valid() && curr <= max && pos + len <= bstr.Length && bstr != buff
      modifies this`curr, bstr
      ensures Valid() && curr <= max && ready == |got| <= len && bstr[..] == Overlay(old(bstr[..]), pos, got)
      ensures all <==> old(Ahead()) != [] && len <= |old(Ahead())|
      ensures if all then ready == len && got + Ahead() == old(Ahead()) else got == old(Ahead()) && curr == old(curr)
    {
      hide Overlay;
      OverlayNothing(bstr[..], pos);
      var avail: nat := max - curr;
      ready, all, got := 0, false, [];
      if avail != 0 {
        all := len <= avail;
        ready := if all then len else avail;
        got := buff[curr..curr + ready];
        Copy(bstr, pos, buff[curr..curr + ready]);
        if all {
          assert old(Ahead()) == got + buff[curr + ready..max];
          curr := curr + ready;
        }
      }
    }

    /** readv until enough has come; p is the address where the next byte goes. */
    method Fill(bstrMin: nat, source: Source, bstr: array<Byte>, pos: nat, len: nat, start: nat, p: nat)
      returns (r: Outcome, ghost got: seq<Byte>, ghost taken: seq<Answer>)
      requires Valid() && curr <= max && pos + len <= bstr.Length && bstr != buff
      requires start <= p <= start + len && start <= bstrMin <= start + len
      modifies this, buff, bstr, source
      ensures Valid() && curr <= max && buff == old(buff)
      ensures p - start + |got| <= len && bstr[..] == Overlay(old(bstr[..]), pos + (p - start), got)
      ensures r.Pending? ==> source.script == [] && got + source.coming == old(source.coming)
      ensures !r.Pending? ==> r.k == p - start + |got| && got + Ahead() + source.coming == old(source.coming)
      ensures r.Done? ==> bstrMin <= start + r.k
      ensures offset - old(offset) == |old(source.coming)| - |source.coming|
      ensures old(source.script) == taken + source.script
      ensures r.IOError? <==> |taken| > 0 && EndsInput(taken[|taken| - 1])
      ensures r.EndOfFile? <==> |taken| > 0 && taken[|taken| - 1].Transfer? && source.given == 0 && len > 0
      ensures r.Done? ==> taken != [] && taken[|taken| - 1].Transfer?
      ensures r.IOError? || r.EndOfFile? ==> Ahead() == []
      ensures |source.coming| <= |old(source.coming)|
      ensures var came := p - start + (|old(source.coming)| - |source.coming|);
              p - start + |got| == Min(len, came) && (r.Pending? ==> GoesOn(came, bstrMin - start, taken)) &&
              Supplied(taken, came, source.given, source.asked, bstrMin - start, len + buff.Length)
    {
      hide Overlay, GoesOn, Supplied, EndsInput, Continues, InOneOrder, Following;
      r, taken := Pending, [];
      got := [];
      var base := p;
      ghost var at: nat, before, coming, script := pos + (p - start), bstr[..], source.coming, source.script;
      ghost var needed: nat, room, came: nat := bstrMin - start, len + buff.Length, p - start;
      OverlayNothing(before, at);
      NoneSupplied(came, source.given, source.asked, needed, room);
      NothingYet(coming, script);
      while r.Pending? && |source.script| > 0
        invariant Valid() && curr <= max && buff == old(buff)
        invariant base == p + |got| <= start + len && (r.Done? ==> bstrMin <= start + r.k)
        invariant bstr[..] == Overlay(before, at, got)
        invariant InOneOrder(got, if r.Pending? then [] else Ahead(), source.coming, coming)
        invariant !r.Pending? ==> r.k == base - start
        invariant offset - old(offset) == |coming| - |source.coming| == came - (p - start) >= 0
        invariant Following(taken, source.script, script) && (r.Pending? ==> Continues(taken))
        invariant r.IOError? <==> |taken| > 0 && EndsInput(taken[|taken| - 1])
        invariant r.EndOfFile? <==> |taken| > 0 && taken[|taken| - 1].Transfer? && source.given == 0 && len > 0
        invariant r.Done? ==> taken != [] && taken[|taken| - 1].Transfer?
        invariant r.IOError? || r.EndOfFile? ==> Ahead() == []
        invariant base - start == Min(len, came) && (r.Pending? ==> base - start == came && GoesOn(came, needed, taken))
        invariant Supplied(taken, came, source.given, source.asked, needed, room)
        decreases |source.script|
      {
        ghost var earlier, a, left := taken, source.script[0], source.coming;
        TakeOne(taken, source.script, script);
        taken := taken + [a];
        var more;
        assert pos + (base - start) == at + |got|;
        r, more := Receive(bstrMin, source, bstr, pos, len, start, base);
        OverlayTwice(before, at, got, more);
        OneMore(got, more, if r.Pending? then [] else Ahead(), source.coming, left, coming);
        Supply(earlier, a, came, source.given, source.asked, needed, room);
        if r.Pending? {
          KeepsGoing(earlier, a, came, source.given, needed);
        }
        came := came + source.given;
        assert Supplied(taken, came, source.given, source.asked, needed, room);
        base := base + |more|;
        got := got + more;
      }
      InOrderIs(got, if r.Pending? then [] else Ahead(), source.coming, coming);
      FollowingIs(taken, source.script, script);
    }

    /** One readv into the rest of the bigstring and then the buffer. */
    method Receive(bstrMin: nat, source: Source, bstr: array<Byte>, pos: nat, len: nat, start: nat, base: nat)
      returns (r: Outcome, got: seq<Byte>)
      requires Valid() && curr <= max && pos + len <= bstr.Length && bstr != buff
      requires start <= base <= start + len && start <= bstrMin <= start + len && |source.script| > 0
      modifies this, buff, bstr, source
      ensures Valid() && curr <= max && buff == old(buff) && source.script == old(source.script)[1..]
      ensures base + |got| <= start + len && bstr[..] == Overlay(old(bstr[..]), pos + (base - start), got)
      ensures r.Pending? ==> got + source.coming == old(source.coming)
      ensures !r.Pending? ==> r.k == base - start + |got| && got + Ahead() + source.coming == old(source.coming)
      ensures r.Done? ==> bstrMin <= start + r.k
      ensures offset - old(offset) == |old(source.coming)| - |source.coming|
      ensures r.IOError? <==> EndsInput(old(source.script)[0])
      ensures r.EndOfFile? <==> old(source.script)[0].Transfer? && source.given == 0 && len > 0
      ensures source.asked == start + len - base + buff.Length && (old(source.script)[0].Error? ==> source.given == 0)
      ensures source.given == |old(source.coming)| - |source.coming| && |got| == Min(start + len - base, source.given)
      ensures r.Done? ==> old(source.script)[0].Transfer?
      ensures r.IOError? || r.EndOfFile? ==> Ahead() == []
      ensures r.Pending? && old(source.script)[0].Transfer? ==> base + source.given < bstrMin
    {
      hide Overlay;
      var iovLen: nat := start + len - base;
      got := [];
      OverlayNothing(bstr[..], pos + (base - start));
      r := Pending;
      var a, data := source.Readv(iovLen + buff.Length);
      if a.Error? {
        if a.errno != EINTR {
          curr := max;
          r := IOError(base - start);
        }
        return;
      }
      var n: nat := a.limit;
      if n == 0 {
        curr := max;
        r := if len == 0 then Done(0) else EndOfFile(base - start);
        return;
      }
      r, got := Place(bstrMin, bstr, pos, len, start, base, data);
    }

    // Bytes that have come go to the bigstring, and those too many to the buffer.
    method Place(bstrMin: nat, bstr: array<Byte>, pos: nat, len: nat, start: nat, base: nat, data: seq<Byte>)
      returns (r: Outcome, got: seq<Byte>)
      requires Valid() && curr <= max && pos + len <= bstr.Length && bstr != buff
      requires start <= base <= start + len && |data| <= start + len - base + buff.Length && bstrMin <= start + len
      modifies this, buff, bstr
      ensures Valid() && curr <= max && buff == old(buff) && (r.Pending? || r.Done?)
      ensures base + |got| <= start + len && bstr[..] == Overlay(old(bstr[..]), pos + (base - start), got)
      ensures r.Pending? ==> got == data && base + |data| < bstrMin
      ensures |got| == Min(start + len - base, |data|)
      ensures r.Done? ==> r.k == base - start + |got| && got + Ahead() == data && bstrMin <= start + r.k
      ensures offset == old(offset) + |data|
    {
      hide Overlay;
      var iovLen: nat := start + len - base;
      got := data[..Min(|data|, iovLen)];
      Copy(bstr, pos + (base - start), got);
      offset := offset + |data|;
      r := Pending;
      var p := base + |data|;
      if p > start + len {
        var extra := data[iovLen..];
        assert data == got + extra;
        Copy(buff, 0, extra);
        max := p - (start + len);
        OverlayStart(old(buff[..]), extra);
        curr := 0;
        r := Done(len);
      } else if p >= bstrMin {
        curr := max;
        r := Done(p - start);
      }
    }

    // memcpy of some bytes to a place in an array.
    method Copy(a: array<Byte>, at: nat, data: seq<Byte>)
      requires at + |data| <= a.Length
      modifies a
      ensures a[..] == Overlay(old(a[..]), at, data)
    {
      forall i | 0 <= i < |data| { a[at + i] := data[i]; }
    }

    // The bytes the two areas of writev hold.
    method Areas(bstr: array<Byte>, pos: nat, len: nat, v: Iovecs) returns (areas: seq<Byte>)
      requires curr <= buff.Length && pos + len <= bstr.Length && InOrder(v, curr, len)
      ensures areas == buff[..curr][v.buffBase..v.buffBase + v.buffIov] +
                       bstr[pos..pos + len][v.bstrBase..v.bstrBase + v.bstrIov]
    {
      SubSlice(bstr[..], pos, pos + len, v.bstrBase, v.bstrBase + v.bstrIov);
      SubSlice(buff[..], 0, curr, v.buffBase, v.buffBase + v.buffIov);
      areas := buff[v.buffBase..v.buffBase + v.buffIov] +
               bstr[pos + v.bstrBase..pos + v.bstrBase + v.bstrIov];
    }

    // memmove of what the buffer still holds to its start.
    method KeepRest(base: nat, rest: nat)
      requires Valid() && base + rest == curr
      modifies this`curr, buff
      ensures curr == rest && buff[..rest] == old(buff[..curr])[base..]
    {
      forall i | 0 <= i < rest { buff[i] := buff[base + i]; }
      curr := rest;
    }
  }

  /** The two areas of writev, and what is left of the buffer and of the bigstring. */
  datatype Iovecs = Iovecs(buffBase: nat, buffLen: nat, buffIov: nat, bstrBase: nat, bstrLen: nat, bstrIov: nat)

  /** Bytes of the bigstring are offered, and gone, only after all of the buffer. */
  predicate InOrder(v: Iovecs, held: nat, len: nat) {
    && v.buffBase + v.buffLen == held && v.bstrBase + v.bstrLen == len
    && (v.buffLen > 0 ==> v.bstrBase == 0)
    && v.buffIov <= v.buffLen && v.bstrIov <= v.bstrLen
    && (v.buffIov < v.buffLen ==> v.bstrIov == 0)
  }

  function Count(v: Iovecs): nat { v.buffBase + v.bstrBase }

  /** All bytes left are offered. */
  predicate Full(v: Iovecs) { v.buffIov == v.buffLen && v.bstrIov == v.bstrLen }

  /**
   What is offered after an answer: the same after an interruption, one byte after a refusal
   of more, and all if all was offered before and some was taken, which was not yet enough.
   */
  ghost predicate Follows(v: Iovecs, a: Answer, v': Iovecs, needed: nat) {
    && (a == Error(EINTR) ==> v' == v)
    && (Refusal(a) ==> v'.buffIov + v'.bstrIov == 1)
    && (a.Transfer? ==> Count(v') < needed && (Full(v) ==> Full(v')))
    && a != Error(EOTHER)
  }

  /**
   How an output that writes ends: with nothing left in the buffer after a transfer, or with
   what has not been sent of it after an error. No byte is lost or sent twice.
   */
  ghost predicate Ended(r: Outcome, last: Answer, written: seq<Byte>, unsent: seq<Byte>, before: seq<Byte>,
                        held: seq<Byte>, data: seq<Byte>, minLen: nat) {
    && (r.Done? || r.IOError?)
    && r.k <= |data| && written + unsent == before + held + data[..r.k]
    && (r.Done? ==> minLen <= r.k && unsent == [] && last.Transfer?)
    && (r.IOError? ==> |before| <= |written| && unsent == held[Min(|written| - |before|, |held|)..])
  }

  // What is kept between one writev and the next.
  ghost predicate Ready(v: Iovecs, taken: seq<Answer>, needed: nat) {
    && GoesOn(Count(v), needed, taken) && Error(EOTHER) !in taken
    && ((forall i :: 0 <= i < |taken| ==> !Refusal(taken[i])) ==> Full(v))
    && (|taken| > 0 && Refusal(taken[|taken| - 1]) ==> v.buffIov + v.bstrIov == 1)
  }

  lemma StartReady(v: Iovecs, needed: nat, last: nat, offered: nat, total: nat)
    requires Full(v)
    ensures Ready(v, [], needed) && Conducted([], 0, last, offered, needed, total)
  {
  }

  lemma ReadyGoesOn(v: Iovecs, taken: seq<Answer>, needed: nat)
    requires Ready(v, taken, needed)
    ensures GoesOn(Count(v), needed, taken)
  {
  }

  lemma Conduct(v: Iovecs, taken: seq<Answer>, a: Answer, held: nat, len: nat, needed: nat, took: nat, offered: nat)
    requires InOrder(v, held, len) && Ready(v, taken, needed) && offered == v.buffIov + v.bstrIov
    ensures Conducted(taken + [a], Count(v) + took, took, offered, needed, held + len)
  {
    assert (taken + [a])[..|taken|] == taken;
    hide GoesOn;
  }

  lemma StillReady(v: Iovecs, taken: seq<Answer>, a: Answer, v': Iovecs, needed: nat)
    requires Ready(v, taken, needed) && Follows(v, a, v', needed) && (a.Error? ==> Count(v') == Count(v))
    ensures Ready(v', taken + [a], needed)
  {
    var more := taken + [a];
    assert more[|taken|] == a && (a.Error? ==> a == Error(a.errno) && (a.errno.EINTR? || Refusal(a)));
    if forall i :: 0 <= i < |more| ==> !Refusal(more[i]) {
      forall i | 0 <= i < |taken| ensures !Refusal(taken[i]) {
        assert taken[i] == more[i];
      }
    }
  }

  /** Moves the areas past n bytes written. */
  method Advance(v: Iovecs, n: nat, minLen: nat, len: nat, held: nat) returns (v': Iovecs, r: Outcome)
    requires InOrder(v, held, len) && n <= v.buffIov + v.bstrIov
    ensures r.Pending? || r.Done?
    ensures r.Pending? ==> InOrder(v', held, len) && Count(v') == Count(v) + n < held + minLen
    ensures r.Pending? && Full(v) ==> Full(v')
    ensures r.Done? ==> minLen <= r.k <= len && held + r.k == Count(v) + n
  {
    v' := v;
    r := Pending;
    if v.buffLen > n {
      v' := v'.(buffBase := v.buffBase + n, buffLen := v.buffLen - n);
      v' := v'.(buffIov := v'.buffLen);
    } else {
      var sent: nat := n - v.buffLen;
      var newBase: nat := v.bstrBase + sent;
      if newBase >= minLen {
        r := Done(newBase);
      } else {
        v' := Iovecs(v.buffBase + v.buffLen, 0, 0, newBase, v.bstrLen - sent, v.bstrLen - sent);
      }
    }
  }

  // The bytes received, those ahead and those to come are those that were to come.
  ghost predicate InOneOrder(got: seq<Byte>, ahead: seq<Byte>, coming: seq<Byte>, before: seq<Byte>) {
    got + ahead + coming == before
  }

  // The answers taken and those to come are those of the script.
  ghost predicate Following(taken: seq<Answer>, script: seq<Answer>, before: seq<Answer>) {
    taken + script == before
  }

  lemma NothingYet(coming: seq<Byte>, script: seq<Answer>)
    ensures InOneOrder([], [], coming, coming) && Following([], script, script)
  {
  }

  lemma OneMore(got: seq<Byte>, more: seq<Byte>, ahead: seq<Byte>, coming: seq<Byte>, left: seq<Byte>,
                before: seq<Byte>)
    requires InOneOrder(got, [], left, before) && more + ahead + coming == left
    ensures InOneOrder(got + more, ahead, coming, before)
  {
    AppendAssoc(got, more, ahead, coming);
  }

  lemma InOrderIs(got: seq<Byte>, ahead: seq<Byte>, coming: seq<Byte>, before: seq<Byte>)
    requires InOneOrder(got, ahead, coming, before)
    ensures got + ahead + coming == before && (ahead == [] ==> got + coming == before)
  {
  }

  lemma FollowingIs(taken: seq<Answer>, script: seq<Answer>, before: seq<Answer>)
    requires Following(taken, script, before)
    ensures taken + script == before
  {
  }

  lemma TakeOne(taken: seq<Answer>, script: seq<Answer>, before: seq<Answer>)
    requires |script| > 0 && Following(taken, script, before)
    ensures Following(taken + [script[0]], script[1..], before)
  {
  }

  lemma NoneSupplied(moved: nat, last: nat, asked: nat, needed: nat, room: nat)
    ensures Supplied([], moved, last, asked, needed, room) && GoesOn(moved, needed, []) && Continues([])
  {
  }

  lemma Supply(taken: seq<Answer>, a: Answer, came: nat, given: nat, asked: nat, needed: nat, room: nat)
    requires GoesOn(came, needed, taken) && Continues(taken) && asked + came == room
    ensures Supplied(taken + [a], came + given, given, asked, needed, room)
  {
    hide GoesOn;
    assert (taken + [a])[..|taken|] == taken;
  }

  lemma KeepsGoing(taken: seq<Answer>, a: Answer, came: nat, given: nat, needed: nat)
    requires GoesOn(came, needed, taken) && Continues(taken) && !EndsInput(a)
    requires if a.Error? then given == 0 else came + given < needed
    ensures GoesOn(came + given, needed, taken + [a]) && Continues(taken + [a])
  {
  }

  // The first m bytes of the buffer and the bigstring have been sent.
  ghost predicate Sent(written: seq<Byte>, before: seq<Byte>, held: seq<Byte>, data: seq<Byte>, m: nat) {
    m <= |held + data| && written == before + (held + data)[..m]
  }

  lemma NothingSent(before: seq<Byte>, held: seq<Byte>, data: seq<Byte>)
    ensures Sent(before, before, held, data, 0)
  {
  }

  /**
   writev is given what comes next of the buffer and the bigstring: it is given bytes
   of the bigstring only when it is given all of the buffer.
   */
  lemma SentMore(written: seq<Byte>, before: seq<Byte>, held: seq<Byte>, data: seq<Byte>, areas: seq<Byte>,
                 v: Iovecs, n: nat)
    requires InOrder(v, |held|, |data|)
    requires areas == held[v.buffBase..v.buffBase + v.buffIov] + data[v.bstrBase..v.bstrBase + v.bstrIov]
    requires n <= |areas|
    requires Sent(written, before, held, data, Count(v))
    ensures Sent(written + areas[..n], before, held, data, Count(v) + n)
  {
    var all, m := held + data, Count(v);
    forall k | 0 <= k < n ensures areas[k] == all[m + k] {
      if k < v.buffIov {
        assert areas[k] == held[v.buffBase + k];
      } else {
        assert areas[k] == data[v.bstrBase + (k - v.buffIov)];
      }
    }
    assert areas[..n] == all[m..m + n];
    assert all[..m] + all[m..m + n] == all[..m + n];
  }

  lemma SentCount(written: seq<Byte>, before: seq<Byte>, held: seq<Byte>, data: seq<Byte>, m: nat)
    requires Sent(written, before, held, data, m)
    ensures |written| == |before| + m && before <= written <= before + held + data
  {
    assert before + held + data == before + (held + data);
  }

  lemma EndsAfterError(written: seq<Byte>, before: seq<Byte>, held: seq<Byte>, data: seq<Byte>, v: Iovecs, last: Answer,
                       minLen: nat)
    requires InOrder(v, |held|, |data|) && Sent(written, before, held, data, Count(v))
    ensures Ended(IOError(v.bstrBase), last, written, held[v.buffBase..], before, held, data, minLen)
  {
    var b, s := v.buffBase, v.bstrBase;
    assert (held + data)[..b + s] + held[b..] == held + data[..s];
  }

  lemma EndsWithEnough(written: seq<Byte>, before: seq<Byte>, held: seq<Byte>, data: seq<Byte>, k: nat, last: Answer,
                       minLen: nat)
    requires minLen <= k <= |data| && last.Transfer? && Sent(written, before, held, data, |held| + k)
    ensures Ended(Done(k), last, written, [], before, held, data, minLen)
  {
    assert (held + data)[..|held| + k] == held + data[..k];
  }

  lemma FollowsTransfer(v: Iovecs, a: Answer, v': Iovecs, needed: nat)
    requires a.Transfer? && Count(v') < needed && (Full(v) ==> Full(v'))
    ensures Follows(v, a, v', needed)
  {
  }

  // Subtracting what the buffer gave wraps, and adding the address unwraps it.
  lemma AddressOfMin(minLen: nat, start: nat, taken: nat, w: WordBits)
    requires start + minLen < Base(w)
    ensures Wrap(Wrap(minLen as int - taken, w) + (start + taken), w) == start + minLen
    ensures taken == 0 ==> Wrap(minLen + start, w) == start + minLen
  {
    hide Base, Wrap;
    WrapTwice(minLen as int - taken, start + taken, w);
  }

  /** A sequence with data written over it at a place. */
  ghost function Overlay(s: seq<Byte>, at: nat, data: seq<Byte>): seq<Byte>
    requires at + |data| <= |s|
  {
    s[..at] + data + s[at + |data|..]
  }

  lemma OverlayNothing(s: seq<Byte>, at: nat)
    requires at <= |s|
    ensures Overlay(s, at, []) == s
  {
  }

  lemma OverlayTwice(s: seq<Byte>, at: nat, x: seq<Byte>, y: seq<Byte>)
    requires at + |x| + |y| <= |s|
    ensures |Overlay(s, at, x)| == |s|
    ensures Overlay(Overlay(s, at, x), at + |x|, y) == Overlay(s, at, x + y)
  {
  }

  lemma OverlayStart(s: seq<Byte>, data: seq<Byte>)
    requires |data| <= |s|
    ensures |Overlay(s, 0, data)| == |s| && Overlay(s, 0, data)[..|data|] == data
  {
  }

  lemma AppendAssoc(x: seq<Byte>, y: seq<Byte>, z: seq<Byte>, t: seq<Byte>)
    ensures (x + y) + z + t == x + (y + z + t)
    ensures (x + y) + [] + t == (x + y) + t
    ensures y + [] + t == y + t
  {
  }
}
