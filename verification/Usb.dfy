/**
 One endpoint of the USB driver: the transfer descriptor that the API calls and
 the interrupt handler share, and the FIFO banks of the hardware behind it.
 */
module Usb {
  import opened Bits
  import opened Packets

  datatype EndpointState = Disabled | Idle | Write | Read | Halted

  /** A packet in one of the receive banks. */
  datatype Banked = Banked(bank: nat, bytes: seq<byte>)

  /** The packets of the receive banks, oldest first. */
  function BytesOf(rx: seq<Banked>): seq<seq<byte>> {
    seq(|rx|, i requires 0 <= i < |rx| => rx[i].bytes)
  }

  /** The packet of a bank is given back to the hardware. */
  function Release(rx: seq<Banked>, bank: nat): seq<Banked> {
    if rx == [] then []
    else if rx[0].bank == bank then rx[1..]
    else [rx[0]] + Release(rx[1..], bank)
  }

  function Other(bank: nat, numFifo: nat): nat {
    if numFifo > 1 && bank == 0 then 1 else 0
  }

  /**
   The hardware and the driver are in step: the full banks alternate from the one the
   flag names, the hardware fills the other one next, and the packets that arrived are
   those the driver has taken and those in the banks, in order.
   */
  ghost predicate InStep(rx: seq<Banked>, flag: nat, nextBank: nat, numFifo: nat,
                         arrived: seq<seq<byte>>, taken: seq<seq<byte>>) {
    && 1 <= numFifo <= 2 && flag < numFifo && |rx| <= numFifo
    && (rx != [] ==> rx[0].bank == flag) && (|rx| == 2 ==> rx[1].bank == Other(flag, numFifo))
    && nextBank == (if |rx| == 1 then Other(flag, numFifo) else flag)
    && arrived == taken + BytesOf(rx)
  }

  /** In step, the hardware has an empty bank for a packet while the driver has one to fill. */
  lemma BankFree(rx: seq<Banked>, flag: nat, nextBank: nat, numFifo: nat, arrived: seq<seq<byte>>,
                 taken: seq<seq<byte>>)
    requires InStep(rx, flag, nextBank, numFifo, arrived, taken)
    ensures (forall i | 0 <= i < |rx| :: rx[i].bank != nextBank) <==> |rx| < numFifo
  {
    if |rx| == numFifo {
      assert rx[0].bank == nextBank;
    }
  }

  lemma PacketArrives(rx: seq<Banked>, flag: nat, nextBank: nat, numFifo: nat,
                      arrived: seq<seq<byte>>, taken: seq<seq<byte>>, p: seq<byte>)
    requires InStep(rx, flag, nextBank, numFifo, arrived, taken) && |rx| < numFifo
    ensures InStep(rx + [Banked(nextBank, p)], flag, Other(nextBank, numFifo), numFifo, arrived + [p], taken)
  {
    assert BytesOf(rx + [Banked(nextBank, p)]) == BytesOf(rx) + [p];
  }

  /** In step, the flag releases the oldest packet. */
  lemma PacketTaken(rx: seq<Banked>, flag: nat, nextBank: nat, numFifo: nat, arrived: seq<seq<byte>>,
                    taken: seq<seq<byte>>)
    requires InStep(rx, flag, nextBank, numFifo, arrived, taken) && rx != []
    ensures Release(rx, flag) == rx[1..]
    ensures InStep(rx[1..], Other(flag, numFifo), nextBank, numFifo, arrived, taken + [rx[0].bytes])
  {
    assert BytesOf(rx) == [rx[0].bytes] + BytesOf(rx[1..]);
  }

  class Endpoint {
    const control: bool                // EPTYPE: endpoint 0 is the control endpoint
    const wMax: nat                    // wMaxPacketSize
    const numFifo: nat                 // dNumFIFO

    var state: EndpointState           // dState
    var data: array<byte>              // pData at the start of the transfer
    var pos: nat                       // how far pData has moved
    var remaining: nat                 // dBytesRemaining
    var buffered: nat                  // dBytesBuffered
    var transferred: nat               // dBytesTransferred
    var callback: bool                 // fCallback is set
    var flag: nat                      // dFlag: the receive bank to release next

    // The hardware: the transmit bank being filled, the packets marked ready for the host,
    // TXCOMP, all packets the host has taken, the receive banks and the one filled next, FORCESTALL.
    var bank: seq<byte>
    var ready: seq<seq<byte>>
    var txcomp: bool
    var host: seq<seq<byte>>
    var rx: seq<Banked>
    var nextBank: nat
    var forceStall: bool

    // The record: callbacks invoked, accepted transfers and whether they came with a callback, how they ended;
    // the bytes of the current one and the packets given out for it; what an earlier one had left in the FIFO:
    // nothing in the bank, these packets, an unhandled TXCOMP; packets delivered and packets taken from the banks.
    ghost var calls: seq<Call>
    ghost var wanted: seq<bool>
    ghost var ends: seq<Ending>
    ghost var src: seq<byte>
    ghost var len: nat
    ghost var issued: seq<seq<byte>>
    ghost var clean: bool
    ghost var stale: seq<seq<byte>>
    ghost var early: bool
    ghost var sentFrom: nat
    ghost var arrived: seq<seq<byte>>
    ghost var taken: seq<seq<byte>>
    ghost var takenFrom: nat

    /** Endpoint number ep after power-up. */
    constructor (ep: nat)
      requires ep < 3
      ensures Valid() && Aligned() && Clean() && Quiet() && state.Disabled? && fresh(data)
      ensures control == (ep == 0) && wMax == (if ep == 0 then 8 else 64)
      ensures calls == [] && ends == [] && wanted == [] && host == []
      ensures flag == 0 && rx == [] && arrived == [] && taken == []
    {
      control, wMax, numFifo := ep == 0, if ep == 0 then 8 else 64, if ep == 0 then 1 else 2;
      state, pos, remaining, buffered, transferred, callback, flag := Disabled, 0, 0, 0, 0, false, 0;
      bank, ready, txcomp, host, rx, nextBank, forceStall := [], [], false, [], [], 0, false;
      calls, wanted, ends, src, len, arrived, taken, takenFrom := [], [], [], [], 0, [], [], 0;
      issued, clean, stale, early, sentFrom := [], false, [], false, 0;
      data := new byte[0];
    }

    predicate Busy()
      reads this`state
    {
      state.Write? || state.Read?
    }

    // ---------------------------------------------------------------- invariants

    ghost predicate Shape() {
      if control then wMax == 8 && numFifo == 1 else wMax == 64 && numFifo == 2
    }

    /** The flag names a bank of the endpoint. */
    predicate FlagOk()
      reads this`flag
    {
      flag == 0 || (flag == 1 && numFifo > 1)
    }

    /** Every accepted transfer but a pending one has ended once, and the callbacks are those of the endings. */
    ghost predicate Ledger()
      reads this`state, this`callback, this`calls, this`wanted, this`ends
    {
      LedgerOk(Busy(), callback, wanted, ends, calls)
    }

    /** Packets the host has not taken, and one that it took but that is not acknowledged. */
    function Waiting(): nat
      reads this`ready, this`txcomp
    {
      |ready| + if txcomp then 1 else 0
    }

    /**
     What the host got since the transfer began and what waits for it: the packets left over, then those of
     the transfer.
    */
    ghost predicate Queued()
      reads this`host, this`sentFrom, this`ready, this`stale, this`issued
    {
      sentFrom <= |host| && host[sentFrom..] + ready == stale + issued
    }

    /** Between two events of a transmit transfer. */
    ghost predicate Sending()
      reads this`transferred, this`buffered, this`remaining, this`len, this`src, this`pos, this`data, this`sentFrom,
            this`host, this`issued, this`clean, this`stale, this`early, this`ready, this`txcomp, this`bank, data
    {
      && transferred + buffered + remaining == len == |src| && pos == transferred + buffered
      && len <= data.Length && data[..len] == src
      && Queued() && Waiting() == |stale| + (if early then 2 else 1)
      && (clean ==> Going(src, transferred, buffered, wMax, numFifo, control, issued, bank))
    }

    /** After the last acknowledgement of a transmit transfer: as many packets wait as waited before it. */
    ghost predicate Sent()
      reads this`transferred, this`buffered, this`remaining, this`len, this`src, this`sentFrom,
            this`host, this`issued, this`clean, this`stale, this`early, this`ready, this`txcomp, this`bank
    {
      && Queued() && |ready| == |stale| + (if early then 1 else 0)
      && (clean ==>
            && wMax > 0 && issued == Split(src, wMax, control) && bank == []
            && transferred == len && remaining == buffered == 0)
    }

    /** The packets taken for the current receive transfer. */
    ghost function Received(): seq<seq<byte>>
      requires takenFrom <= |taken|
      reads this`taken, this`takenFrom
    {
      taken[takenFrom..]
    }

    /** Between two events of a receive transfer. */
    ghost predicate Receiving()
      reads this`transferred, this`remaining, this`buffered, this`len, this`data, this`pos, this`taken, this`takenFrom,
            data
    {
      && transferred + remaining == len && len <= data.Length && takenFrom <= |taken|
      && buffered == 0 && pos == transferred && data[..transferred] == Flat(Received())
    }

    ghost predicate Valid()
      reads this, data
    {
      && Shape() && FlagOk() && Ledger() && (control ==> bank == [])
      && (state.Write? ==> Sending()) && (state.Read? ==> Receiving())
    }

    /** The FIFO has nothing to transmit. */
    predicate Clean()
      reads this`bank, this`ready, this`txcomp
    {
      bank == [] && ready == [] && !txcomp
    }

    /** A bulk endpoint has no packet of an earlier transfer in its FIFO. */
    ghost predicate Quiet()
      reads this`state, this`bank, this`ready, this`txcomp, this`clean, this`stale, this`early
    {
      !control ==>
        && (state.Idle? || state.Read? ==> Clean())
        && (state.Write? ==> clean && stale == [] && !early)
    }

    /** The driver releases the banks in the order in which the hardware fills them. */
    ghost predicate Aligned()
      reads this`rx, this`flag, this`nextBank, this`arrived, this`taken
    {
      InStep(rx, flag, nextBank, numFifo, arrived, taken)
    }

    // ---------------------------------------------------------------- ending a transfer

    /** How the current transfer ends with a status. */
    ghost function Ended(status: Status): (r: Ending)
      reads this`callback, this`transferred, this`remaining, this`buffered
      ensures !r.Dropped?
    {
      if callback then Called(status, transferred, remaining + buffered) else Silent
    }

    /** usb_end_of_transfer: back to idle, and the callback if there is one. */
    method EndOfTransfer(status: Status)
      requires Shape() && Ledger()
      modifies this`state, this`calls, this`ends
      ensures Ledger() && !Busy()
      ensures !old(Busy()) ==> state == old(state) && calls == old(calls) && ends == old(ends)
      ensures old(Busy()) ==> state == Idle && ends == old(ends) + [Ended(status)]
      ensures old(Busy()) ==>
                calls == old(calls)
                  + if callback then [Call(|wanted| - 1, status, transferred, remaining + buffered)] else []
    {
      hide LedgerOk, CallsOf;
      if state == Write || state == Read {
        state := Idle;
        ghost var e := Ended(status);
        LedgerEnds(callback, wanted, ends, calls, e);
        ends := ends + [e];
        if callback {
          calls := calls + [Call(|wanted| - 1, status, transferred, remaining + buffered)];
        }
        assert calls == old(calls)
          + if e.Called? then [Call(|wanted| - 1, status, transferred, remaining + buffered)] else [];
      }
    }

    // ---------------------------------------------------------------- transmitting

    /** usb_writepayload: moves up to a packet from the transfer buffer to the FIFO. */
    method WritePayload()
      requires pos + remaining == len == |src| && len <= data.Length && data[..len] == src
      modifies this`bank, this`pos, this`buffered, this`remaining
      ensures var p, n := old(pos), First(src[old(pos)..], wMax);
              && pos == p + n && buffered == old(buffered) + n && remaining == old(remaining) - n
              && bank == old(bank) + src[p..p + n]
    {
      var bytes := if wMax < remaining then wMax else remaining;
      for ctr := 0 to bytes
        invariant pos == old(pos) + ctr && bank == old(bank) + src[old(pos)..pos]
        invariant buffered == old(buffered) && remaining == old(remaining)
      {
        assert data[pos] == data[..len][pos];
        bank := bank + [data[pos]];
        pos := pos + 1;
      }
      buffered := buffered + bytes;
      remaining := remaining - bytes;
    }

    /** TXPKTRDY: the filled bank is the next packet for the host. */
    method SetPacketReady()
      modifies this`bank, this`ready
      ensures ready == old(ready) + [old(bank)] && bank == []
    {
      ready, bank := ready + [bank], [];
    }

    /** The endpoint takes on a transfer. */
    method Accept(s: EndpointState, cb: bool)
      requires Ledger() && !Busy() && (s == Write || s == Read)
      modifies this`state, this`callback, this`wanted
      ensures Ledger() && state == s && callback == cb && wanted == old(wanted) + [cb]
    {
      hide LedgerOk;
      LedgerAccepts(callback, wanted, ends, calls, cb);
      state, callback, wanted := s, cb, wanted + [cb];
    }

    /** usb_write: refused unless idle; else the first packet is ready and a second one may be prepared. */
    method StartWrite(d: array<byte>, length: nat, cb: bool) returns (status: Status)
      requires Valid() && length <= d.Length
      modifies this`state, this`data, this`pos, this`remaining, this`buffered, this`transferred, this`callback,
               this`bank, this`ready, this`wanted, this`src, this`len, this`issued, this`clean, this`stale, this`early,
               this`sentFrom
      ensures Valid()
      ensures if old(state) != Idle then
                status == Locked && unchanged(this)
              else
                && status == Success && state == Write && data == d && src == d[..length] && len == length
                && callback == cb && wanted == old(wanted) + [cb]
                && clean == (old(bank) == []) && stale == old(ready) && early == old(txcomp) && sentFrom == |host|
    {
      hide LedgerOk, Endpoint.Ended, Endpoint.Sending, Endpoint.Receiving, Endpoint.Described, Endpoint.Queued,
           Endpoint.Waiting;
      if state != Idle {
        return Locked;
      }
      Accept(Write, cb);
      Begin(d, length);
      status := Success;
    }

    /** The descriptor and the first packets. */
    method Begin(d: array<byte>, length: nat)
      requires Shape() && length <= d.Length && (control ==> bank == [])
      modifies this`data, this`pos, this`remaining, this`buffered, this`transferred,
               this`bank, this`ready, this`src, this`len, this`issued, this`clean, this`stale, this`early, this`sentFrom
      ensures Sending() && (control ==> bank == []) && data == d && src == d[..length] && len == length
      ensures clean == (old(bank) == []) && stale == old(ready) && early == old(txcomp) && sentFrom == |host|
    {
      hide Endpoint.Sending, Endpoint.Described;
      Describe(d, length);
      FirstPackets();
    }

    /** The transfer descriptor is set, nothing of the transfer is in the FIFO yet. */
    ghost predicate Described()
      reads this`transferred, this`remaining, this`buffered, this`len, this`src, this`data, this`pos, this`sentFrom,
            this`host,
            this`issued, this`clean, this`stale, this`early, this`bank, this`ready, this`txcomp, data
    {
      && pos == buffered == transferred == 0 && remaining == len == |src| <= data.Length && src == data[..len]
      && sentFrom == |host| && issued == [] && clean == (bank == []) && stale == ready && early == txcomp
    }

    /** Sets up the transfer descriptor. */
    method Describe(d: array<byte>, length: nat)
      requires length <= d.Length
      modifies this`data, this`pos, this`remaining, this`buffered, this`transferred, this`len, this`src, this`issued,
               this`clean, this`stale, this`early, this`sentFrom
      ensures Described() && data == d && src == d[..length] && len == length
      ensures clean == (bank == []) && stale == ready && early == txcomp && sentFrom == |host|
    {
      data, pos, remaining, buffered, transferred, len := d, 0, length, 0, 0, length;
      src := d[..length];
      Remember();
    }

    /** The record of what an earlier transfer left in the FIFO. */
    ghost method Remember()
      modifies this`issued, this`clean, this`stale, this`early, this`sentFrom
      ensures sentFrom == |host| && issued == [] && clean == (bank == []) && stale == ready && early == txcomp
    {
      issued, clean, stale, early, sentFrom := [], bank == [], ready, txcomp, |host|;
    }

    method FirstPackets()
      requires Shape() && Described() && (control ==> bank == [])
      modifies this`pos, this`remaining, this`buffered, this`bank, this`ready, this`issued
      ensures Sending() && (control ==> bank == [])
    {
      hide Split, Going;
      assert src[0..] == src;
      WritePayload();
      assert clean ==> bank == src[..First(src, wMax)];
      PacketOut();
      if numFifo > 1 && remaining > 0 {
        WritePayload();
      }
      if clean {
        GoingStart(src, wMax, numFifo, control);
        ghost var n: nat := First(src, wMax);
        assert issued == [src[..n]];
        assert bank == src[n..n + if numFifo > 1 then First(src[n..], wMax) else 0];
      }
    }

    /** The packet in the bank is given out for the transfer. */
    method PacketOut()
      requires Queued()
      modifies this`bank, this`ready, this`issued
      ensures Queued() && bank == [] && ready == old(ready) + [old(bank)] && issued == old(issued) + [old(bank)]
    {
      ghost var p := bank;
      assert host[sentFrom..] + (ready + [p]) == (host[sentFrom..] + ready) + [p];
      assert stale + (issued + [p]) == (stale + issued) + [p];
      SetPacketReady();
      issued := issued + [p];
    }

    /** The host takes the packet that is ready. */
    method HostTakes()
      requires Valid() && ready != [] && !txcomp
      modifies this`ready, this`host, this`txcomp
      ensures Valid() && host == old(host) + [old(ready)[0]] && ready == old(ready)[1..] && txcomp
    {
      hide Split, Going, LedgerOk, Flat, Endpoint.Receiving;
      ghost var h, r := host, ready;
      if state == Write {
        OneMoved(h, r, sentFrom);
      }
      host, ready, txcomp := host + [ready[0]], ready[1..], true;
      assert state == Write ==> host[sentFrom..] + ready == h[sentFrom..] + r;
    }

    /** A packet that the host takes leaves the queue as it is. */
    static lemma OneMoved(host: seq<seq<byte>>, ready: seq<seq<byte>>, from: nat)
      requires from <= |host| && ready != []
      ensures (host + [ready[0]])[from..] + ready[1..] == host[from..] + ready
    {
      assert ready == [ready[0]] + ready[1..];
      assert (host + [ready[0]])[from..] == host[from..] + [ready[0]];
    }

    /** The handler for TXCOMP. */
    method TxComplete()
      requires Valid() && txcomp
      modifies this`state, this`pos, this`remaining, this`buffered, this`transferred, this`bank, this`ready,
               this`txcomp,
               this`issued, this`calls, this`ends
      ensures Valid() && !txcomp
      ensures !old(state).Write? ==>
                && ends == old(ends) && state == old(state) && bank == old(bank) && ready == old(ready)
                && transferred == old(transferred) && remaining == old(remaining) && buffered == old(buffered)
      ensures old(state).Write? && state.Write? ==> ends == old(ends) && transferred == old(transferred) + wMax
      ensures old(state).Write? && !state.Write? ==> state == Idle && ends == old(ends) + [Ended(Success)] && Sent()
    {
      hide Split, Going, LedgerOk, Flat, Endpoint.Receiving, Endpoint.Queued;
      if state == Write {
        if buffered < wMax || (!control && remaining == 0 && buffered == wMax) {
          Acknowledged();
        } else {
          NextPacket();
        }
      }
      txcomp := false;
    }

    method Acknowledged()
      requires Valid() && txcomp && state == Write && LastPacket(buffered, remaining, wMax, control)
      modifies this`state, this`buffered, this`transferred, this`calls, this`ends
      ensures Valid() && state == Idle && ends == old(ends) + [Ended(Success)] && Sent()
    {
      hide Split, Going, LedgerOk, Flat;
      if clean {
        GoingEnd(src, transferred, buffered, wMax, numFifo, control, issued, bank);
      }
      transferred := transferred + buffered;
      buffered := 0;
      EndOfTransfer(Success);
    }

    /** The next packet goes out; TXCOMP is still set. */
    method NextPacket()
      requires Valid() && txcomp && state == Write && !LastPacket(buffered, remaining, wMax, control)
      modifies this`pos, this`remaining, this`buffered, this`transferred, this`bank, this`ready, this`issued
      ensures transferred == old(transferred) + wMax && transferred + buffered + remaining == len
      ensures pos == transferred + buffered && Queued() && |ready| == |old(ready)| + 1 && (control ==> bank == [])
      ensures clean ==> Going(src, transferred, buffered, wMax, numFifo, control, issued, bank)
    {
      hide Split, Going, LedgerOk, Flat, LastPacket, First, Endpoint.Receiving, Endpoint.Queued, Endpoint.Waiting,
           Endpoint.Ledger;
      if clean {
        GoingOn(src, transferred, buffered, wMax, numFifo, control, issued, bank);
      }
      AtLeastOne();
      transferred := transferred + wMax;
      buffered := buffered - wMax;
      ghost var p, n := pos, First(src[pos..], wMax);
      if numFifo == 1 {
        WritePayload();
        assert clean ==> bank == src[p..p + n];
        PacketOut();
        assert clean ==> issued == old(issued) + [src[p..p + n]];
      } else {
        PacketOut();
        WritePayload();
        assert clean ==> issued == old(issued) + [old(bank)] && bank == src[p..p + n];
      }
    }

    lemma AtLeastOne()
      requires !LastPacket(buffered, remaining, wMax, control)
      ensures wMax <= buffered
    {
    }

    // ---------------------------------------------------------------- receiving

    /** usb_read: refused unless idle. */
    method StartRead(d: array<byte>, length: nat, cb: bool) returns (status: Status)
      requires Valid() && length <= d.Length
      modifies this`state, this`data, this`pos, this`remaining, this`buffered, this`transferred, this`callback,
               this`wanted, this`len, this`takenFrom
      ensures Valid()
      ensures if old(state) != Idle then
                status == Locked && unchanged(this)
              else
                && status == Success && state == Read && data == d && len == remaining == length
                && callback == cb && wanted == old(wanted) + [cb] && takenFrom == |taken|
    {
      hide LedgerOk, Endpoint.Ended, Endpoint.Sending, Endpoint.Receiving;
      if state != Idle {
        return Locked;
      }
      Accept(Read, cb);
      DescribeRead(d, length);
      status := Success;
    }

    method DescribeRead(d: array<byte>, length: nat)
      requires length <= d.Length
      modifies this`data, this`pos, this`remaining, this`buffered, this`transferred, this`len, this`takenFrom
      ensures Receiving() && takenFrom == |taken| && data == d && len == remaining == length
    {
      data, pos, remaining, buffered, transferred, len, takenFrom := d, 0, length, 0, 0, length, |taken|;
      assert Received() == [];
    }

    /** The host delivers a packet into the next bank, if that one is empty. */
    method HostSends(p: seq<byte>) returns (accepted: bool)
      requires Valid()
      modifies this`rx, this`nextBank, this`arrived
      ensures Valid() && (old(Aligned()) ==> Aligned() && (accepted <==> |old(rx)| < numFifo))
      ensures accepted <==> forall i | 0 <= i < |old(rx)| :: old(rx)[i].bank != old(nextBank)
      ensures nextBank == if accepted then Other(old(nextBank), numFifo) else old(nextBank)
      ensures arrived == if accepted then old(arrived) + [p] else old(arrived)
      ensures rx == if accepted then old(rx) + [Banked(old(nextBank), p)] else old(rx)
    {
      hide LedgerOk, Endpoint.Ended, Endpoint.Sending, Endpoint.Receiving, InStep, BytesOf;
      accepted := forall i | 0 <= i < |rx| :: rx[i].bank != nextBank;
      if Aligned() {
        BankFree(rx, flag, nextBank, numFifo, arrived, taken);
        if accepted {
          PacketArrives(rx, flag, nextBank, numFifo, arrived, taken, p);
        }
      }
      if accepted {
        rx := rx + [Banked(nextBank, p)];
        arrived := arrived + [p];
        nextBank := Other(nextBank, numFifo);
      }
    }

    /** usb_getpayload: moves the packet of the oldest bank to the transfer buffer, as far as there is room. */
    method GetPayload()
      requires Receiving() && rx != []
      modifies this`pos, this`remaining, this`buffered, this`transferred, data
      ensures var p := rx[0].bytes; var n := if old(remaining) < |p| then old(remaining) else |p|;
              && remaining == old(remaining) - n && transferred == pos == old(transferred) + n
              && buffered == |p| - n && data[..transferred] == old(data[..transferred]) + p[..n]
    {
      var p := rx[0].bytes;
      var bytes := if |p| < remaining then |p| else remaining;
      for ctr := 0 to bytes
        invariant pos == old(pos) + ctr && data[..pos] == old(data[..pos]) + p[..ctr]
        invariant remaining == old(remaining) && transferred == old(transferred) && buffered == old(buffered)
      {
        data[pos] := p[ctr];
        pos := pos + 1;
      }
      remaining := remaining - bytes;
      transferred := transferred + bytes;
      buffered := buffered + |p| - bytes;
    }

    /** usb_clear_rx_flag: the bank named by the flag goes back to the hardware, and the flag moves to the other one. */
    method ClearRxFlag()
      requires FlagOk()
      modifies this`rx, this`flag
      ensures FlagOk() && flag == Other(old(flag), numFifo) && rx == Release(old(rx), old(flag))
    {
      rx := Release(rx, flag);
      flag := if flag == 0 then (if numFifo > 1 then 1 else 0) else 0;
    }

    /** The packet in the oldest bank is done with. */
    method ReleaseOldest()
      requires FlagOk() && rx != []
      modifies this`rx, this`flag, this`taken
      ensures FlagOk() && taken == old(taken) + [old(rx)[0].bytes]
      ensures flag == Other(old(flag), numFifo) && rx == Release(old(rx), old(flag))
      ensures old(Aligned()) ==> Aligned() && rx == old(rx)[1..]
    {
      hide InStep, Release;
      if Aligned() {
        PacketTaken(rx, flag, nextBank, numFifo, arrived, taken);
      }
      taken := taken + [rx[0].bytes];
      ClearRxFlag();
    }

    /** A packet is taken by the driver or dropped by it, and its bank released. */
    ghost predicate TakesPacket()
      reads this`state, this`rx, this`forceStall
      requires rx != []
    {
      state.Read? || (control && rx[0].bytes == []) || forceStall
    }

    /** The handler for a full receive bank. */
    method RxReady()
      requires Valid() && rx != []
      modifies this`state, this`pos, this`remaining, this`buffered, this`transferred, this`rx, this`flag, this`taken,
               this`calls, this`ends, data
      ensures Valid()
      ensures taken == old(taken) + if old(TakesPacket()) then [old(rx)[0].bytes] else []
      ensures rx == if old(TakesPacket()) then Release(old(rx), old(flag)) else old(rx)
      ensures flag == if old(TakesPacket()) then Other(old(flag), numFifo) else old(flag)
      ensures old(Aligned()) ==> Aligned() && rx == if old(TakesPacket()) then old(rx)[1..] else old(rx)
      ensures old(state).Read? ==> Stored(old(rx)[0].bytes) && (state.Read? || state.Idle?)
      ensures !old(state).Read? ==>
        && (if old(Busy()) && control && old(rx)[0].bytes == [] then state == Idle else state == old(state))
        && transferred == old(transferred) && remaining == old(remaining) && buffered == old(buffered)
      ensures ends == old(ends) + if old(Busy()) && !Busy() then [Ended(Success)] else []
    {
      hide LedgerOk, Endpoint.Ended, Endpoint.Sending, Endpoint.Receiving, Endpoint.Stored, InStep, Flat, Release;
      if state != Read {
        if control && |rx[0].bytes| == 0 {
          ReleaseOldest();
          EndOfTransfer(Success);
        } else if forceStall {
          ReleaseOldest();
        }
      } else {
        ReadPacket();
      }
    }

    /** After a packet of a receive transfer: what is in the buffer. */
    ghost predicate Kept()
      reads this`transferred, this`remaining, this`buffered, this`pos, this`len, this`data, this`taken, this`takenFrom,
            data
    {
      && transferred + remaining == len && len <= data.Length && takenFrom <= |taken| && pos == transferred
      && transferred + buffered == |Flat(Received())|
      && (buffered > 0 ==> remaining == 0)
      && data[..transferred] == Flat(Received())[..transferred]
    }

    /** And whether the transfer goes on. */
    ghost predicate Stored(p: seq<byte>)
      reads this`state, this`transferred, this`remaining, this`buffered, this`pos, this`len, this`data, this`taken,
            this`takenFrom, data
    {
      Kept() && if remaining == 0 || |p| < wMax then state == Idle else state == Read
    }

    /** The bytes of a packet behind those of the packets before it, cut to the room that is left. */
    static lemma StoredPrefix(before: seq<seq<byte>>, p: seq<byte>, room: nat)
      ensures var n := if room < |p| then room else |p|;
              && |Flat(before + [p])| == |Flat(before)| + |p|
              && Flat(before) + p[..n] == Flat(before + [p])[..|Flat(before)| + n]
    {
      FlatSnoc(before, p);
    }

    method TakePacket()
      requires Receiving() && FlagOk() && rx != []
      modifies this`pos, this`remaining, this`buffered, this`transferred, this`rx, this`flag, this`taken, data
      ensures Kept() && FlagOk() && taken == old(taken) + [old(rx)[0].bytes]
      ensures flag == Other(old(flag), numFifo) && rx == Release(old(rx), old(flag))
      ensures old(Aligned()) ==> Aligned() && rx == old(rx)[1..]
    {
      hide InStep, Flat, Release;
      ghost var before, p := Received(), rx[0].bytes;
      StoredPrefix(before, p, remaining);
      GetPayload();
      ReleaseOldest();
      assert Received() == before + [p];
    }

    method ReadPacket()
      requires Valid() && rx != [] && state == Read
      modifies this`state, this`pos, this`remaining, this`buffered, this`transferred, this`rx, this`flag, this`taken,
               this`calls, this`ends, data
      ensures Valid() && Stored(old(rx)[0].bytes) && taken == old(taken) + [old(rx)[0].bytes]
                && (state.Read? || state.Idle?)
      ensures flag == Other(old(flag), numFifo) && rx == Release(old(rx), old(flag))
      ensures old(Aligned()) ==> Aligned() && rx == old(rx)[1..]
      ensures ends == old(ends) + if !Busy() then [Ended(Success)] else []
    {
      hide LedgerOk, InStep, Flat, Release, Endpoint.Sending, Endpoint.Ended;
      var packetsize := |rx[0].bytes|;
      TakePacket();
      if remaining == 0 || packetsize < wMax {
        EndOfTransfer(Success);
      }
    }

    // ---------------------------------------------------------------- requests and resets

    /** A SETUP packet: a pending transfer counts as complete. */
    method SetupReceived()
      requires Valid()
      modifies this`state, this`calls, this`ends
      ensures Valid() && state == if old(Busy()) then Idle else old(state)
      ensures ends == old(ends)
                + if !old(Busy()) then []
                   else [if callback then Called(Success, transferred, remaining + buffered) else Silent]
    {
      hide LedgerOk, Endpoint.Sending, Endpoint.Receiving;
      EndOfTransfer(Success);
    }

    /** UDP_RSTEP: the FIFO loses what it holds; the hardware goes on with the bank hwBank. */
    method ResetFifo(hwBank: nat)
      requires Shape() && FlagOk() && hwBank < numFifo
      modifies this`bank, this`ready, this`txcomp, this`rx, this`nextBank, this`arrived
      ensures flag == hwBank ==> Aligned()
      ensures Clean() && rx == [] && nextBank == hwBank && arrived == taken
    {
      bank, ready, txcomp, rx, nextBank := [], [], false, [], hwBank;
      arrived := taken;
    }

    /**
     usb_halt with CLEAR_FEATURE: idle, whatever was going on; a pending transfer ends
     without its callback. The flag of the driver stays what it was, while the hardware
     goes on with the bank hwBank.
     */
    method Unhalt(hwBank: nat)
      requires Valid() && hwBank < numFifo
      modifies this`state, this`forceStall, this`bank, this`ready, this`txcomp, this`rx, this`nextBank, this`arrived,
               this`ends
      ensures Valid() && state == Idle && !forceStall && Clean() && calls == old(calls)
      ensures ends == old(ends) + if old(Busy()) then [Dropped] else []
      ensures rx == [] && nextBank == hwBank && arrived == taken && (old(flag) == hwBank ==> Aligned())
    {
      hide LedgerOk, Endpoint.Ended, InStep, Endpoint.Sending, Endpoint.Receiving;
      if Busy() {
        LedgerEnds(callback, wanted, ends, calls, Dropped);
        ends := ends + [Dropped];
        assert calls + [] == calls;
      }
      state := Idle;
      forceStall := false;
      ResetFifo(hwBank);
    }

    /** usb_halt with SET_FEATURE. */
    method Halt()
      requires Valid()
      modifies this`state, this`forceStall, this`calls, this`ends
      ensures Valid() && state == if old(state) == Disabled then Disabled else Halted
      ensures forceStall == (old(forceStall) || (old(state) != Disabled && old(state) != Halted))
      ensures ends == old(ends)
                + if !old(Busy()) then []
                   else [if callback then Called(Aborted, transferred, remaining + buffered) else Silent]
    {
      hide LedgerOk, InStep, Endpoint.Sending, Endpoint.Receiving;
      if state != Halted && state != Disabled {
        EndOfTransfer(Aborted);
        forceStall := true;
        state := Halted;
      }
    }

    /** usb_configure_endpoint. */
    method Configure(hwBank: nat)
      requires Valid() && hwBank < numFifo
      modifies this`state, this`data, this`pos, this`remaining, this`buffered, this`transferred, this`callback,
               this`bank, this`ready, this`txcomp, this`rx, this`nextBank, this`arrived, this`forceStall,
               this`calls, this`ends
      ensures Valid() && state == Idle && Clean() && fresh(data) && !callback && !forceStall && rx == []
      ensures pos == remaining == buffered == transferred == 0
      ensures ends == old(ends)
                + if !old(Busy()) then []
                  else [if old(callback) then Called(Reset, old(transferred), old(remaining + buffered)) else Silent]
      ensures nextBank == hwBank && arrived == taken && (old(flag) == hwBank ==> Aligned())
    {
      hide LedgerOk, InStep, Endpoint.Sending, Endpoint.Receiving;
      if state == Read || state == Write {
        EndOfTransfer(Reset);
      }
      Forget(hwBank);
    }

    /** The transfer descriptor is cleared and the FIFO reset. */
    method Forget(hwBank: nat)
      requires Shape() && FlagOk() && hwBank < numFifo && Ledger() && !Busy()
      modifies this`state, this`data, this`pos, this`remaining, this`buffered, this`transferred, this`callback,
               this`bank, this`ready, this`txcomp, this`rx, this`nextBank, this`arrived, this`forceStall
      ensures Valid() && state == Idle && Clean() && fresh(data) && (flag == hwBank ==> Aligned())
      ensures nextBank == hwBank && arrived == taken
      ensures pos == remaining == buffered == transferred == 0 && !callback && !forceStall && rx == []
    {
      hide LedgerOk, InStep, Endpoint.Sending, Endpoint.Receiving;
      ClearDescriptor();
      ResetFifo(hwBank);
      forceStall := false;
    }

    method ClearDescriptor()
      requires Ledger() && !Busy()
      modifies this`state, this`data, this`pos, this`remaining, this`buffered, this`transferred, this`callback
      ensures Ledger() && state == Idle && fresh(data) && pos == remaining == buffered == transferred == 0 && !callback
    {
      hide LedgerOk;
      LedgerIdle(callback, wanted, ends, calls, false);
      state, pos, remaining, buffered, transferred, callback := Idle, 0, 0, 0, 0, false;
      data := new byte[0];
    }

    /** usb_set_configuration with configuration 0, for this endpoint. */
    method Disable()
      requires Valid()
      modifies this`state, this`calls, this`ends
      ensures Valid() && state == Disabled
      ensures ends == old(ends)
                + if !old(Busy()) then []
                   else [if callback then Called(Reset, transferred, remaining + buffered) else Silent]
    {
      hide LedgerOk, InStep, Endpoint.Sending, Endpoint.Receiving;
      EndOfTransfer(Reset);
      state := Disabled;
    }

    /** usb_stall, and the handler after a STALL was sent. */
    method Stall()
      requires Valid()
      modifies this`forceStall
      ensures Valid() && forceStall == (old(forceStall) || state == Idle)
    {
      hide LedgerOk, Endpoint.Ended, InStep, Endpoint.Sending, Endpoint.Receiving;
      if state != Idle {
        return;
      }
      forceStall := true;
    }

    method StallSent()
      requires Valid()
      modifies this`forceStall
      ensures Valid() && forceStall == (old(forceStall) && state == Halted)
    {
      hide LedgerOk, Endpoint.Ended, InStep, Endpoint.Sending, Endpoint.Receiving;
      if state != Halted {
        forceStall := false;
      }
    }
  }

  // ---------------------------------------------------------------- whole transfers

  /**
   A transmit transfer driven by the host, on an idle endpoint whose FIFO may hold packets of an
   earlier transfer that were not acknowledged. The driver counts their acknowledgements as its
   own: the host gets the old packets first, and when the transfer is reported complete as many
   packets wait as waited before. On an empty FIFO, and on no other, all of it has arrived: the
   bytes in order, in the number of packets that the length asks for.
   */
  method Transmit(e: Endpoint, d: array<byte>, length: nat, cb: bool)
    requires e.Valid() && e.state == Idle && e.bank == [] && length <= d.Length
    modifies e
    ensures e.Valid() && e.state == Idle && e.bank == [] && !e.txcomp && e.transferred == length
    ensures e.ends == old(e.ends) + [if cb then Called(Success, length, 0) else Silent]
    ensures e.wMax > 0 && |e.ready| == old(e.Waiting()) && old(e.host) <= e.host
    ensures e.host[|old(e.host)|..] + e.ready == old(e.ready) + Split(d[..length], e.wMax, e.control)
    ensures e.Clean() <==> old(e.Clean())
    ensures e.Clean() ==> Flat(e.host[|old(e.host)|..]) == d[..length]
    ensures e.Clean() ==>
              |e.host| - |old(e.host)| ==
                if e.control then length / 8 + 1 else if length == 0 then 1 else (length + 63) / 64
  {
    hide LedgerOk, Going, Split, Flat, InStep, Endpoint.Sending, Endpoint.Receiving;
    ghost var before := e.host;
    var status := e.StartWrite(d, length, cb);
    SendAll(e);
    SplitHoldsAll(d[..length], e.wMax, e.control);
    SplitCount(d[..length], e.wMax, e.control);
    assert e.Clean() ==> e.host[|before|..] == e.host[|before|..] + e.ready == Split(d[..length], e.wMax, e.control);
  }

  /** The host takes one packet after the other, each followed by its TXCOMP interrupt. */
  method SendAll(e: Endpoint)
    requires e.Valid() && e.state == Write && e.clean && e.sentFrom == |e.host|
    modifies e`ready, e`host, e`txcomp, e`state, e`pos, e`remaining, e`buffered, e`transferred, e`bank, e`issued,
             e`calls, e`ends
    ensures e.Valid() && e.state == Idle && !e.txcomp && e.Sent() && old(e.host) <= e.host
    ensures e.ends == old(e.ends) + [if e.callback then Called(Success, e.len, 0) else Silent]
  {
    hide LedgerOk, Going, Split, Flat, Endpoint.Sending, Endpoint.Receiving;
    while e.state == Write
      invariant e.Valid() && (e.state == Write || e.state == Idle) && old(e.host) <= e.host
      invariant e.state == Write ==> e.ends == old(e.ends)
      invariant e.state == Idle ==>
                && e.Sent() && !e.txcomp
                && e.ends == old(e.ends) + [if e.callback then Called(Success, e.len, 0) else Silent]
      decreases e.state == Write, e.len - e.transferred
    {
      PacketReady(e);
      if !e.txcomp {
        e.HostTakes();
      }
      e.TxComplete();
    }
  }

  lemma PacketReady(e: Endpoint)
    requires e.Sending() && e.clean
    ensures (e.ready != [] || e.txcomp) && e.transferred <= e.len
  {
    hide Split;
  }

  /** A transfer of one short packet, begun on an empty FIFO of a control endpoint. */
  method StartOne(e: Endpoint, c: array<byte>)
    requires e.Valid() && e.state == Idle && e.Clean() && e.control && c.Length < 8
    modifies e
    ensures e.Valid() && e.state == Write && e.host == old(e.host) && e.ready == [c[..]] && e.bank == [] && !e.txcomp
    ensures e.ends == old(e.ends) && e.callback && e.transferred == 0 && e.remaining + e.buffered == c.Length
  {
    hide LedgerOk, Flat, InStep, Endpoint.Receiving;
    var status := e.StartWrite(c, c.Length, true);
    assert c[..c.Length] == c[..];
    OneIssued(e);
  }

  lemma OneIssued(e: Endpoint)
    requires e.Shape() && e.control && e.Sending() && e.clean && e.stale == [] && !e.early && !e.txcomp
               && e.sentFrom == |e.host|
    requires |e.src| < 8 && e.transferred == 0
    ensures e.ready == [e.src]
  {
    assert e.host[e.sentFrom..] + e.ready == e.ready && e.stale + e.issued == e.issued;
    assert e.src[0..] == e.src;
  }

  lemma OnePacket(q: seq<byte>, host: seq<seq<byte>>, ready: seq<seq<byte>>, p: seq<byte>)
    requires |q| < 8 && |ready| == 1 && host + ready == [p] + Split(q, 8, true)
    ensures host == [p] && ready == [q]
  {
    assert |host| == 1 && (host + ready)[0] == p && (host + ready)[1] == q;
  }

  /** How a control endpoint gets there: a SETUP packet ends a transfer whose packet the host has not taken. */
  method SetupLeavesPacket(p: seq<byte>) returns (e: Endpoint)
    requires |p| < 8
    ensures fresh(e) && e.Valid() && e.control && e.wMax == 8 && e.state == Idle
    ensures e.host == [] && e.ready == [p] && e.bank == [] && !e.txcomp && e.ends == [Called(Success, 0, |p|)]
  {
    hide LedgerOk, Going, Flat, InStep, Endpoint.Sending, Endpoint.Receiving;
    e := new Endpoint(0);
    e.Configure(0);
    var c := new byte[|p|](i requires 0 <= i < |p| => p[i]);
    assert c[..] == p;
    StartOne(e, c);
    e.SetupReceived();
  }

  /** The next transfer is then reported complete when the host has the old packet and not the new one. */
  method OnePacketBehind(p: seq<byte>, q: seq<byte>) returns (e: Endpoint)
    requires |p| < 8 && |q| < 8
    ensures e.Valid() && e.state == Idle && e.host == [p] && e.ready == [q]
    ensures e.ends == [Called(Success, 0, |p|), Called(Success, |q|, 0)]
  {
    hide LedgerOk, Going, Flat, InStep, Split, Endpoint.Valid;
    e := SetupLeavesPacket(p);
    var d := new byte[|q|](i requires 0 <= i < |q| => q[i]);
    assert d[..|q|] == q;
    Transmit(e, d, |q|, true);
    assert e.host[0..] == e.host;
    OnePacket(q, e.host, e.ready, p);
  }

  /**
   A receive transfer, with packets waiting in the banks or not: the host sends packets
   when it finds an empty bank, the handler runs when it gets its turn, in any order. The
   first k of the packets waiting and sent are consumed, their bytes are in the buffer as
   far as they fit, and the transfer ends with the first packet that is short or fills it.
   */
  method Receive(e: Endpoint, d: array<byte>, length: nat, cb: bool, packets: seq<seq<byte>>, hostFirst: nat -> bool)
    returns (ghost all: seq<seq<byte>>, ghost k: nat)
    requires e.Valid() && e.state == Idle && e.Aligned() && length <= d.Length
    modifies e, d
    ensures e.Valid() && e.Aligned() && all == old(BytesOf(e.rx)) + packets && k <= |all| && e.data == d
    ensures e.transferred + e.buffered == |Flat(all[..k])|
    ensures e.transferred == if length < |Flat(all[..k])| then length else |Flat(all[..k])|
    ensures d[..e.transferred] == Flat(all[..k])[..e.transferred]
    ensures e.state == Idle ==>
              && k > 0 && (|all[k - 1]| < e.wMax || e.transferred == length)
              && var n := |Flat(all[..k])|;
                 e.ends == old(e.ends)
                   + [if cb then Called(Success, e.transferred, if n <= length then length - n else n - length)
                      else Silent]
    ensures e.state != Idle ==> e.state == Read && k == |all| && e.ends == old(e.ends)
                                && forall i | 0 <= i < k :: |all[i]| >= e.wMax
  {
    hide Flat, Between, Taken, Endpoint.Aligned, Endpoint.Valid, BytesOf;
    ghost var before := e.taken;
    all := BytesOf(e.rx) + packets;
    StartReceive(e, d, length, cb, packets);
    k := Exchange(e, before, all, |e.rx|, packets, hostFirst);
    Outcome(e, before, all, k);
  }

  /** The call of usb_read, with packets in the banks. */
  method StartReceive(e: Endpoint, d: array<byte>, length: nat, cb: bool, ghost packets: seq<seq<byte>>)
    requires e.Valid() && e.state == Idle && e.Aligned() && length <= d.Length
    modifies e`state, e`data, e`pos, e`remaining, e`buffered, e`transferred, e`callback, e`wanted, e`len, e`takenFrom
    ensures e.state == Read && e.data == d && e.len == length && e.callback == cb && |BytesOf(e.rx)| == |e.rx|
    ensures var all := BytesOf(e.rx) + packets;
            Between(e, e.taken, all, 0, |e.rx|) && |all| == |e.rx| + |packets| && all[|e.rx|..] == packets
  {
    hide LedgerOk, Flat, InStep, Endpoint.Sending, Endpoint.Ended, Endpoint.Receiving, Endpoint.Kept, BytesOf;
    WaitingPackets(e, packets);
    var status := e.StartRead(d, length, cb);
  }

  /** What the packets taken have left in the buffer. */
  lemma Outcome(e: Endpoint, before: seq<seq<byte>>, all: seq<seq<byte>>, k: nat)
    requires Taken(e, before, all, k)
    ensures e.Valid() && e.Aligned() && (e.state == Read || e.state == Idle) && k <= |all|
              && e.transferred <= e.data.Length
    ensures e.transferred + e.buffered == |Flat(all[..k])| && e.transferred + e.remaining == e.len
    ensures e.transferred == if e.len < |Flat(all[..k])| then e.len else |Flat(all[..k])|
    ensures e.data[..e.transferred] == Flat(all[..k])[..e.transferred]
    ensures e.state == Idle ==> k > 0 && (|all[k - 1]| < e.wMax || e.transferred == e.len)
    ensures e.state == Read ==> forall i | 0 <= i < k :: |all[i]| >= e.wMax
  {
    hide LedgerOk, Flat, InStep, Endpoint.Sending, Endpoint.Receiving, Endpoint.Kept;
    assert e.Received() == all[..k];
    InTheBuffer(e);
  }

  /** The turns of host and handler. */
  method Exchange(e: Endpoint, ghost before: seq<seq<byte>>, ghost all: seq<seq<byte>>, ghost waiting: nat,
                  packets: seq<seq<byte>>, hostFirst: nat -> bool)
    returns (ghost k: nat)
    requires e.state == Read && |all| == waiting + |packets| && all[waiting..] == packets
               && Between(e, before, all, 0, waiting)
    modifies e`state, e`pos, e`remaining, e`buffered, e`transferred, e`rx, e`flag, e`nextBank, e`arrived, e`taken,
             e`calls, e`ends, e.data
    ensures k <= |all| && Taken(e, before, all, k) && (e.state == Read ==> k == |all|)
    ensures e.ends == old(e.ends) + if e.state == Idle then [e.Ended(Success)] else []
  {
    hide Between, Taken, Endpoint.Ended, Endpoint.Aligned, Endpoint.Valid;
    var sent: nat, turn: nat := 0, 0;
    k := 0;
    InTheBanks(e, before, all, 0, waiting);
    while e.state == Read && (sent < |packets| || e.rx != [])
      invariant sent <= |packets| && k <= waiting + sent && Between(e, before, all, k, waiting + sent)
      invariant |e.rx| == waiting + sent - k && 0 < e.numFifo
      invariant e.ends == old(e.ends) + if e.state == Idle then [e.Ended(Success)] else []
      decreases |packets| - sent + |all| - k
    {
      if sent < |packets| && |e.rx| < e.numFifo && (e.rx == [] || hostFirst(turn)) {
        HostTurn(e, before, all, k, waiting + sent, packets[sent]);
        sent := sent + 1;
      } else {
        DriverTurn(e, before, all, k, waiting + sent);
        k := k + 1;
      }
      InTheBanks(e, before, all, k, waiting + sent);
      turn := turn + 1;
    }
    AllTaken(e, before, all, k, waiting + sent);
  }

  /** k packets are taken and next - k are in the banks; the transfer goes on unless packet k - 1 ended it. */
  ghost predicate Between(e: Endpoint, before: seq<seq<byte>>, all: seq<seq<byte>>, k: nat, next: nat)
    reads e, e.data
  {
    Taken(e, before, all, k) && k <= next <= |all| && e.arrived == before + all[..next]
  }

  /** What Between says of the packets taken. */
  ghost predicate Taken(e: Endpoint, before: seq<seq<byte>>, all: seq<seq<byte>>, k: nat)
    reads e, e.data
  {
    && e.Valid() && e.Aligned() && (e.state == Read || e.state == Idle)
    && k <= |all| && e.taken == before + all[..k] && e.takenFrom == |before|
    && (e.state == Read ==> forall i | 0 <= i < k :: |all[i]| >= e.wMax)
    && (e.state == Idle ==> 0 < k && e.Kept() && (|all[k - 1]| < e.wMax || e.remaining == 0))
  }

  lemma AllTaken(e: Endpoint, before: seq<seq<byte>>, all: seq<seq<byte>>, k: nat, next: nat)
    requires Between(e, before, all, k, next)
    ensures Taken(e, before, all, k) && (e.state == Read || e.state == Idle)
  {
  }

  method HostTurn(e: Endpoint, ghost before: seq<seq<byte>>, ghost all: seq<seq<byte>>, ghost k: nat, ghost next: nat,
                  p: seq<byte>)
    requires Between(e, before, all, k, next) && e.state == Read && |e.rx| < e.numFifo && next < |all| && all[next] == p
    modifies e`rx, e`nextBank, e`arrived
    ensures Between(e, before, all, k, next + 1)
  {
    hide LedgerOk, Flat, InStep, Endpoint.Sending, Endpoint.Ended, Endpoint.Receiving, Endpoint.Kept, BytesOf;
    var accepted := e.HostSends(p);
    assert all[..next + 1] == all[..next] + [p];
  }

  method DriverTurn(e: Endpoint, ghost before: seq<seq<byte>>, ghost all: seq<seq<byte>>, ghost k: nat, ghost next: nat)
    requires Between(e, before, all, k, next) && e.state == Read && k < next
    modifies e`state, e`pos, e`remaining, e`buffered, e`transferred, e`rx, e`flag, e`taken, e`calls, e`ends, e.data
    ensures Between(e, before, all, k + 1, next)
    ensures e.ends == old(e.ends) + if e.state == Idle then [e.Ended(Success)] else []
  {
    hide LedgerOk, Flat, InStep, Endpoint.Sending, Endpoint.Ended, Endpoint.Receiving, Endpoint.Kept, BytesOf;
    InTheBanks(e, before, all, k, next);
    e.RxReady();
  }

  lemma WaitingPackets(e: Endpoint, packets: seq<seq<byte>>)
    requires e.Aligned()
    ensures |BytesOf(e.rx)| == |e.rx| && e.arrived == e.taken + (BytesOf(e.rx) + packets)[..|e.rx|]
  {
    assert (BytesOf(e.rx) + packets)[..|e.rx|] == BytesOf(e.rx);
  }

  /** The packets between those taken and those arrived are the ones in the banks. */
  lemma InTheBanks(e: Endpoint, before: seq<seq<byte>>, all: seq<seq<byte>>, k: nat, next: nat)
    requires Between(e, before, all, k, next)
    ensures |e.rx| == next - k && (k < next ==> e.rx[0].bytes == all[k]) && 0 < e.numFifo
  {
    hide LedgerOk, Flat, Endpoint.Kept, Endpoint.Sending, Endpoint.Receiving;
    if k < next {
      assert e.arrived[|before| + k] == BytesOf(e.rx)[0];
    }
  }

  lemma InTheBuffer(e: Endpoint)
    requires e.Receiving() || e.Kept()
    ensures e.takenFrom <= |e.taken| && e.transferred <= e.data.Length
    ensures e.transferred + e.remaining == e.len && e.transferred + e.buffered == |Flat(e.Received())|
    ensures e.transferred == if e.len < |Flat(e.Received())| then e.len else |Flat(e.Received())|
    ensures e.data[..e.transferred] == Flat(e.Received())[..e.transferred]
  {
    hide Flat;
  }

  // ---------------------------------------------------------------- after a reset of the FIFO

  /** The buffer of a transfer holds these bytes, as far as there is room. */
  ghost predicate Holds(d: array<byte>, bytes: seq<byte>)
    reads d
  {
    if d.Length < |bytes| then d[..] == bytes[..d.Length] else d[..|bytes|] == bytes
  }

  /**
   Any packet after a reset, read into a buffer of any size; should the packet end the transfer and be
   in its bank still, another buffer is offered. The driver takes the packet once, as it arrived, exactly
   if its flag named before the reset the bank with which the hardware goes on. Otherwise it releases the
   other bank, finds the packet again and delivers it twice: to the same transfer if that goes on, that
   is after a full packet that leaves room, and to the next one otherwise.
   */
  method FirstPacketAfterReset(e: Endpoint, configure: bool, hwBank: nat, d: array<byte>, d2: array<byte>, p: seq<byte>)
    requires e.Valid() && hwBank < e.numFifo && d != d2
    modifies e, d, d2
    ensures e.Valid() && e.arrived == old(e.taken) + [p] && e.rx == []
    ensures e.taken == e.arrived <==> old(e.flag) == hwBank
    ensures old(e.flag) == hwBank ==> e.Aligned() && Holds(d, p) && d2[..] == old(d2[..])
    ensures old(e.flag) != hwBank ==> e.taken == old(e.taken) + [p, p]
    ensures old(e.flag) != hwBank ==>
              if |p| >= e.wMax && |p| < d.Length then Holds(d, p + p) && d2[..] == old(d2[..])
              else Holds(d, p) && Holds(d2, p)
  {
    hide LedgerOk, Flat, InStep, Endpoint.Sending, Endpoint.Ended, Endpoint.Receiving, Endpoint.Kept, Release, Holds;
    ResetAndRead(e, configure, hwBank, d);
    FirstTime(e, p);
    if e.rx != [] {
      if e.state == Read {
        SecondTime(e, p, [p]);
      } else {
        var status := e.StartRead(d2, d2.Length, false);
        SecondTime(e, p, []);
      }
    }
  }

  method ResetAndRead(e: Endpoint, configure: bool, hwBank: nat, d: array<byte>)
    requires e.Valid() && hwBank < e.numFifo
    modifies e
    ensures e.Valid() && e.state == Read && e.data == d && e.remaining == e.len == d.Length && e.takenFrom == |e.taken|
    ensures e.rx == [] && e.nextBank == hwBank && e.flag == old(e.flag) && e.arrived == e.taken == old(e.taken)
    ensures old(e.flag) == hwBank ==> e.Aligned()
  {
    hide LedgerOk, InStep, Endpoint.Sending, Endpoint.Ended, Endpoint.Receiving;
    if configure {
      e.Configure(hwBank);
    } else {
      e.Unhalt(hwBank);
    }
    var status := e.StartRead(d, d.Length, false);
  }

  /** The packet arrives and the handler runs: its bank is released only if the flag names it. */
  method FirstTime(e: Endpoint, p: seq<byte>)
    requires e.Valid() && e.state == Read && e.rx == [] && e.takenFrom == |e.taken| && e.len == e.data.Length
    modifies e`state, e`pos, e`remaining, e`buffered, e`transferred, e`rx, e`nextBank, e`arrived, e`flag, e`taken,
             e`calls, e`ends, e.data
    ensures e.Valid() && e.taken == old(e.taken) + [p] && e.arrived == old(e.arrived) + [p] && Holds(e.data, p)
    ensures e.state == if |p| >= e.wMax && |p| < e.data.Length then Read else Idle
    ensures e.rx == (if old(e.flag) == old(e.nextBank) then [] else [Banked(old(e.nextBank), p)])
    ensures e.flag == Other(old(e.flag), e.numFifo)
    ensures old(e.Aligned()) ==> e.Aligned()
  {
    hide LedgerOk, Flat, InStep, Endpoint.Sending, Endpoint.Ended, Endpoint.Receiving, Endpoint.Kept;
    var accepted := e.HostSends(p);
    e.RxReady();
    assert e.Received() == [p];
    FlatOnceTwice(p);
    StoredBytes(e, p);
  }

  /** The handler runs again on a packet that was not released; before are the packets of this transfer. */
  method SecondTime(e: Endpoint, p: seq<byte>, ghost before: seq<seq<byte>>)
    requires e.Valid() && e.state == Read && e.rx == [Banked(e.flag, p)] && e.len == e.data.Length
    requires e.takenFrom <= |e.taken| && e.Received() == before && (before == [] || before == [p])
    modifies e`state, e`pos, e`remaining, e`buffered, e`transferred, e`rx, e`flag, e`taken, e`calls, e`ends, e.data
    ensures e.Valid() && e.taken == old(e.taken) + [p] && e.rx == []
    ensures Holds(e.data, if before == [] then p else p + p)
  {
    hide LedgerOk, Flat, InStep, Endpoint.Sending, Endpoint.Ended, Endpoint.Receiving, Endpoint.Kept;
    e.RxReady();
    assert e.Received() == before + [p];
    assert [] + [p] == [p] && [p] + [p] == [p, p];
    FlatOnceTwice(p);
    StoredBytes(e, p);
  }

  lemma StoredBytes(e: Endpoint, p: seq<byte>)
    requires e.Stored(p)
    ensures e.takenFrom <= |e.taken| && e.transferred <= e.data.Length && e.transferred + e.remaining == e.len
    ensures e.transferred == if e.len < |Flat(e.Received())| then e.len else |Flat(e.Received())|
    ensures e.data[..e.transferred] == Flat(e.Received())[..e.transferred]
    ensures if e.remaining == 0 || |p| < e.wMax then e.state == Idle else e.state == Read
  {
    hide Flat;
  }

  /**
   A run that gets there: the bulk OUT endpoint as configured, one packet taken, the
   feature cleared, and the hardware back at bank 0. The next packet is delivered twice.
   */
  method DeliversTwice(p: seq<byte>, q: seq<byte>) returns (e: Endpoint)
    ensures e.Valid() && e.arrived == [p, q] && e.taken == [p, q, q]
  {
    hide LedgerOk, Flat, InStep, Endpoint.Sending, Endpoint.Receiving, Endpoint.Kept;
    e := new Endpoint(1);
    var c := new byte[|p|];
    ResetAndRead(e, true, 0, c);
    FirstTime(e, p);
    var d, d2 := new byte[|q|], new byte[|q|];
    FirstPacketAfterReset(e, false, 0, d, d2, q);
  }

  // ---------------------------------------------------------------- any interleaving

  datatype Event =
    | WriteCall(bytes: seq<byte>, cb: bool)
    | ReadCall(room: nat, cb: bool)
    | HostTakesPacket
    | HostSendsPacket(packet: seq<byte>)
    | TxInterrupt
    | RxInterrupt
    | SetupPacket
    | SetHalt
    | ClearHalt(hwBank: nat)
    | SetConfiguration(hwBank: nat)
    | ClearConfiguration
    | StallCall
    | StallSentInterrupt

  /** The event resets the FIFO. */
  predicate ResetsFifo(ev: Event) {
    ev.ClearHalt? || ev.SetConfiguration?
  }

  /** The hardware has as many banks as the endpoint. */
  predicate BankExists(ev: Event, numFifo: nat) {
    ResetsFifo(ev) ==> ev.hwBank < numFifo
  }

  /** What an event may do to the record: at most one transfer ends, and without a word only by CLEAR_FEATURE. */
  twostate predicate Recorded(e: Endpoint, ev: Event)
    reads e
  {
    && old(e.ends) <= e.ends && |e.ends| <= |old(e.ends)| + 1
    && old(e.wanted) <= e.wanted && |e.wanted| <= |old(e.wanted)| + 1
    && (|e.ends| > |old(e.ends)| ==> old(e.Busy()) && (e.ends[|old(e.ends)|] == Dropped <==> ev.ClearHalt?))
    && (if ResetsFifo(ev) then old(e.flag) == ev.hwBank ==> e.Aligned() else old(e.Aligned()) ==> e.Aligned())
    && (old(e.Quiet()) && !ev.SetupPacket? ==> e.Quiet())
  }

  /** One event; events of the hardware that cannot happen now do nothing. */
  method Perform(e: Endpoint, ev: Event)
    requires e.Valid() && BankExists(ev, e.numFifo)
    modifies e, e.data
    ensures e.Valid() && (e.data == old(e.data) || fresh(e.data)) && Recorded(e, ev)
  {
    hide LedgerOk, InStep, Flat, Endpoint.Sending, Endpoint.Receiving, Endpoint.Kept;
    match ev {
      case WriteCall(bytes, cb) =>
        var d := new byte[|bytes|](i requires 0 <= i < |bytes| => bytes[i]);
        CallWrite(e, d, cb, ev);
      case ReadCall(room, cb) =>
        var d := new byte[room];
        CallRead(e, d, cb, ev);
      case HostTakesPacket => HostActs(e, ev);
      case HostSendsPacket(packet) => HostActs(e, ev);
      case TxInterrupt => Interrupt(e, ev);
      case RxInterrupt => Interrupt(e, ev);
      case _ => Request(e, ev);
    }
  }

  method CallWrite(e: Endpoint, d: array<byte>, cb: bool, ghost ev: Event)
    requires e.Valid() && !ResetsFifo(ev)
    modifies e
    ensures e.Valid() && (e.data == old(e.data) || e.data == d) && Recorded(e, ev)
  {
    hide LedgerOk, InStep, Flat, Endpoint.Sending, Endpoint.Receiving, Endpoint.Kept;
    var status := e.StartWrite(d, d.Length, cb);
  }

  method CallRead(e: Endpoint, d: array<byte>, cb: bool, ghost ev: Event)
    requires e.Valid() && !ResetsFifo(ev)
    modifies e
    ensures e.Valid() && (e.data == old(e.data) || e.data == d) && Recorded(e, ev)
  {
    hide LedgerOk, InStep, Flat, Endpoint.Sending, Endpoint.Receiving, Endpoint.Kept;
    var status := e.StartRead(d, d.Length, cb);
  }

  method HostActs(e: Endpoint, ev: Event)
    requires e.Valid() && !ResetsFifo(ev)
    modifies e
    ensures e.Valid() && e.data == old(e.data) && Recorded(e, ev)
  {
    hide LedgerOk, InStep, Flat, Endpoint.Sending, Endpoint.Receiving, Endpoint.Kept, Endpoint.Stored, Endpoint.Ended;
    match ev {
      case HostTakesPacket => if e.ready != [] && !e.txcomp { e.HostTakes(); }
      case HostSendsPacket(packet) => var accepted := e.HostSends(packet);
      case _ =>
    }
  }

  method Interrupt(e: Endpoint, ev: Event)
    requires e.Valid() && !ResetsFifo(ev)
    modifies e, e.data
    ensures e.Valid() && e.data == old(e.data) && Recorded(e, ev)
  {
    hide LedgerOk, InStep, Flat, Endpoint.Sending, Endpoint.Receiving, Endpoint.Kept, Endpoint.Stored, Endpoint.Ended;
    match ev {
      case TxInterrupt => if e.txcomp { e.TxComplete(); }
      case RxInterrupt => if e.rx != [] { e.RxReady(); }
      case _ =>
    }
  }

  method Request(e: Endpoint, ev: Event)
    requires e.Valid() && BankExists(ev, e.numFifo)
    modifies e
    ensures e.Valid() && (e.data == old(e.data) || fresh(e.data))
    ensures !ev.WriteCall? && !ev.ReadCall? ==> Recorded(e, ev)
  {
    hide LedgerOk, InStep, Flat, Endpoint.Sending, Endpoint.Receiving, Endpoint.Kept, Endpoint.Stored, Endpoint.Ended;
    match ev {
      case SetupPacket => e.SetupReceived();
      case SetHalt => e.Halt();
      case ClearHalt(hwBank) => e.Unhalt(hwBank);
      case SetConfiguration(hwBank) => e.Configure(hwBank);
      case ClearConfiguration => e.Disable();
      case StallCall => e.Stall();
      case StallSentInterrupt => e.StallSent();
      case _ =>
    }
  }

  /**
   Any run of events, in any order: no callback is invoked twice, every transfer that
   was accepted with a callback and has ended had it invoked once unless CLEAR_FEATURE
   ended it, and without a FIFO reset the driver stays in step with the banks.
   */
  method Run(e: Endpoint, events: seq<Event>)
    requires e.Valid() && forall ev | ev in events :: BankExists(ev, e.numFifo)
    modifies e, e.data
    ensures e.Valid() && old(e.ends) <= e.ends && old(e.wanted) <= e.wanted
    ensures forall id: nat :: CallsFor(e.calls, id) <= 1
    ensures forall id | 0 <= id < |e.ends| ::
              CallsFor(e.calls, id) == if e.wanted[id] && e.ends[id] != Dropped then 1 else 0
    ensures (forall ev | ev in events :: !ev.ClearHalt?) ==>
              forall i | |old(e.ends)| <= i < |e.ends| :: e.ends[i] != Dropped
    ensures old(e.Aligned()) && (forall ev | ev in events :: !ResetsFifo(ev)) ==> e.Aligned() && e.taken <= e.arrived
    ensures old(e.Quiet()) && (forall ev | ev in events :: !ev.SetupPacket?) ==> e.Quiet()
  {
    hide LedgerOk, InStep, Flat, CallsFor, Endpoint.Sending, Endpoint.Receiving;
    for n := 0 to |events|
      invariant e.Valid() && (e.data == old(e.data) || fresh(e.data))
      invariant old(e.ends) <= e.ends && old(e.wanted) <= e.wanted
      invariant (forall ev | ev in events :: !ev.ClearHalt?) ==>
                  forall i | |old(e.ends)| <= i < |e.ends| :: e.ends[i] != Dropped
      invariant old(e.Aligned()) && (forall ev | ev in events :: !ResetsFifo(ev)) ==> e.Aligned()
      invariant old(e.Quiet()) && (forall ev | ev in events :: !ev.SetupPacket?) ==> e.Quiet()
    {
      assert events[n] in events;
      Perform(e, events[n]);
    }
    CalledOnce(e);
    if e.Aligned() {
      InOrder(e);
    }
  }

  /** In step, what the driver has taken is a head of what arrived. */
  lemma InOrder(e: Endpoint)
    requires e.Aligned()
    ensures e.taken <= e.arrived
  {
  }

  lemma CalledOnce(e: Endpoint)
    requires e.Ledger()
    ensures forall id: nat :: CallsFor(e.calls, id) <= 1
    ensures |e.ends| <= |e.wanted|
    ensures forall id | 0 <= id < |e.ends| ::
              CallsFor(e.calls, id) == if e.wanted[id] && e.ends[id] != Dropped then 1 else 0
  {
    hide CallsOf, CallsFor;
    forall id: nat ensures CallsFor(e.calls, id) == if id < |e.ends| && e.ends[id].Called? then 1 else 0 {
      OneCallEach(e.ends, id);
    }
    forall id | 0 <= id < |e.ends| ensures e.ends[id].Called? <==> e.wanted[id] && e.ends[id] != Dropped {
      assert Fits(e.wanted[id], e.ends[id]);
    }
  }
}
