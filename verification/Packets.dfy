/**
 Transfers and packets of an endpoint, as values: how the bytes of a transfer
 fall into packets, and the record of how transfers ended.
 */
module Packets {
  import opened Bits

  // ---------------------------------------------------------------- packets of a transfer

  /**
   The packets of a transfer: a control endpoint ends with a short packet, a bulk endpoint may end with a full
   one.
  */
  function Split(data: seq<byte>, w: nat, control: bool): (r: seq<seq<byte>>)
    requires w > 0
    ensures |r| > 0 && r[0] == data[..First(data, w)]
    decreases |data|
  {
    if |data| < w || (!control && |data| == w) then [data]
    else [data[..w]] + Split(data[w..], w, control)
  }

  /** The length of the first packet. */
  function First(data: seq<byte>, w: nat): (n: nat)
    ensures n <= |data|
  {
    if |data| < w then |data| else w
  }

  /** The bytes of a list of packets. */
  function Flat(ps: seq<seq<byte>>): seq<byte> {
    if ps == [] then [] else Flat(ps[..|ps| - 1]) + ps[|ps| - 1]
  }

  lemma FlatSnoc(ps: seq<seq<byte>>, p: seq<byte>)
    ensures Flat(ps + [p]) == Flat(ps) + p
  {
    assert (ps + [p])[..|ps|] == ps;
  }

  /** A packet delivered once, and twice. */
  lemma FlatOnceTwice(p: seq<byte>)
    ensures Flat([p]) == p && Flat([p, p]) == p + p
  {
    hide Flat;
    FlatNothing();
    assert [p] == [] + [p] && [p, p] == [p] + [p];
    FlatSnoc([], p);
    FlatSnoc([p], p);
  }

  lemma FlatNothing()
    ensures Flat([]) == []
  {
  }

  lemma {:induction false} FlatCons(p: seq<byte>, ps: seq<seq<byte>>)
    ensures Flat([p] + ps) == p + Flat(ps)
  {
    if ps == [] {
      assert [p] + ps == [] + [p];
      FlatSnoc([], p);
    } else {
      var init, last := ps[..|ps| - 1], ps[|ps| - 1];
      FlatCons(p, init);
      assert [p] + ps == ([p] + init) + [last];
      FlatSnoc([p] + init, last);
    }
  }

  /** The packets hold the bytes of the transfer in order. */
  lemma {:induction false} SplitHoldsAll(data: seq<byte>, w: nat, control: bool)
    requires w > 0
    ensures Flat(Split(data, w, control)) == data
    decreases |data|
  {
    var ps := Split(data, w, control);
    if |data| < w || (!control && |data| == w) {
      assert ps == [] + [data];
      FlatSnoc([], data);
    } else {
      SplitHoldsAll(data[w..], w, control);
      FlatCons(data[..w], Split(data[w..], w, control));
    }
  }

  /** All packets but the last are full, and the last one ends the transfer. */
  lemma {:induction false} SplitSizes(data: seq<byte>, w: nat, control: bool)
    requires w > 0
    ensures var ps := Split(data, w, control);
            && (forall i | 0 <= i < |ps| - 1 :: |ps[i]| == w)
            && |ps[|ps| - 1]| <= w && (control ==> |ps[|ps| - 1]| < w)
    decreases |data|
  {
    if !(|data| < w || (!control && |data| == w)) {
      SplitSizes(data[w..], w, control);
    }
  }

  /** The number of packets: len / w + 1 on a control endpoint, at least one and rounded up on a bulk endpoint. */
  lemma {:induction false} SplitCount(data: seq<byte>, w: nat, control: bool)
    requires w > 0
    ensures |Split(data, w, control)| ==
            if control then |data| / w + 1
            else if data == [] then 1 else (|data| + w - 1) / w
    decreases |data|
  {
    if |data| < w || (!control && |data| == w) {
      if 0 < |data| {
        ModUnique(|data| + w - 1, w, 1, |data| - 1);
      }
    } else {
      SplitCount(data[w..], w, control);
      OneLess(|data|, w);
      OneLess(|data| + w - 1, w);
    }
  }

  lemma OneLess(n: nat, w: nat)
    requires 0 < w <= n
    ensures n / w == (n - w) / w + 1
  {
    var q, r := (n - w) / w, (n - w) % w;
    assert n - w == q * w + r;
    assert (q + 1) * w == q * w + w;
    ModUnique(n, w, q + 1, r);
  }

  // ---------------------------------------------------------------- a transmit transfer under way

  /** The packet prepared behind the first one of the rest. */
  function Ahead(rest: seq<byte>, w: nat, numFifo: nat): seq<byte> {
    if numFifo > 1 && |rest| > w then rest[w..][..First(rest[w..], w)] else []
  }

  /**
   t bytes are acknowledged; of the packets given out for the transfer all but the last are
   acknowledged, and the next one may be prepared in the bank.
   */
  ghost predicate Going(src: seq<byte>, t: nat, buffered: nat, w: nat, numFifo: nat, control: bool,
                        issued: seq<seq<byte>>, bank: seq<byte>) {
    && 0 < w && t <= |src| && issued != []
    && var rest, acked, flight := src[t..], issued[..|issued| - 1], issued[|issued| - 1];
       && acked + Split(rest, w, control) == Split(src, w, control)
       && flight == rest[..First(rest, w)] && bank == Ahead(rest, w, numFifo)
       && buffered == |flight| + |bank|
  }

  /** The test of the handler for the end of a transmit transfer. */
  predicate LastPacket(buffered: nat, remaining: nat, w: nat, control: bool) {
    buffered < w || (!control && remaining == 0 && buffered == w)
  }

  lemma GoingStart(src: seq<byte>, w: nat, numFifo: nat, control: bool)
    requires 0 < w
    ensures var n := First(src, w);
            var m := if numFifo > 1 then First(src[n..], w) else 0;
            Going(src, 0, n + m, w, numFifo, control, [src[..n]], src[n..n + m])
  {
    hide Split;
    assert src[0..] == src;
  }

  /** The last acknowledgement: all packets are given out. */
  lemma GoingEnd(src: seq<byte>, t: nat, buffered: nat, w: nat, numFifo: nat, control: bool,
                 issued: seq<seq<byte>>, bank: seq<byte>)
    requires Going(src, t, buffered, w, numFifo, control, issued, bank) && t + buffered <= |src|
    requires LastPacket(buffered, |src| - t - buffered, w, control) && (control <==> numFifo == 1) && numFifo > 0
    ensures issued == Split(src, w, control) && bank == [] && t + buffered == |src|
  {
    var rest := src[t..];
    assert |rest| < w || (!control && |rest| == w);
    assert issued == issued[..|issued| - 1] + [rest];
  }

  /** When the test for the end fails, the rest does not end with its first packet. */
  lemma NextSplit(rest: seq<byte>, w: nat, numFifo: nat, control: bool, buffered: nat)
    requires 0 < w && numFifo > 0 && (control <==> numFifo == 1) && buffered <= |rest|
    requires buffered == First(rest, w) + |Ahead(rest, w, numFifo)|
               && !LastPacket(buffered, |rest| - buffered, w, control)
    ensures w <= |rest| && First(rest, w) == w
    ensures Split(rest, w, control) == [rest[..w]] + Split(rest[w..], w, control)
  {
  }

  /** Any other acknowledgement: w bytes more are acknowledged. */
  lemma OneMoreTaken(src: seq<byte>, t: nat, buffered: nat, w: nat, numFifo: nat, control: bool,
                     issued: seq<seq<byte>>, bank: seq<byte>)
    requires Going(src, t, buffered, w, numFifo, control, issued, bank) && t + buffered <= |src|
    requires !LastPacket(buffered, |src| - t - buffered, w, control) && (control <==> numFifo == 1) && numFifo > 0
    ensures 0 < w && t + w <= |src| && issued + Split(src[t + w..], w, control) == Split(src, w, control)
    ensures numFifo > 1 ==> t + w < |src| && bank == src[t + w..][..First(src[t + w..], w)]
    ensures buffered == w + |bank| && (numFifo == 1 ==> bank == [])
  {
    var rest, acked := src[t..], issued[..|issued| - 1];
    NextSplit(rest, w, numFifo, control, buffered);
    hide Split;
    assert rest[w..] == src[t + w..];
    assert issued == acked + [rest[..w]];
    assert issued + Split(rest[w..], w, control) == acked + ([rest[..w]] + Split(rest[w..], w, control));
  }

  /** And the next packet goes out, and the one after it is prepared. */
  lemma GoingOn(src: seq<byte>, t: nat, buffered: nat, w: nat, numFifo: nat, control: bool,
                issued: seq<seq<byte>>, bank: seq<byte>)
    requires Going(src, t, buffered, w, numFifo, control, issued, bank) && t + buffered <= |src|
    requires !LastPacket(buffered, |src| - t - buffered, w, control) && (control <==> numFifo == 1) && numFifo > 0
    ensures w <= buffered
    ensures var p := t + buffered;
            var n := First(src[p..], w);
            if numFifo == 1 then
              bank == [] && Going(src, t + w, buffered - w + n, w, numFifo, control, issued + [src[p..p + n]], [])
            else
              Going(src, t + w, buffered - w + n, w, numFifo, control, issued + [bank], src[p..p + n])
  {
    hide Going, Split, LastPacket, First, Ahead;
    OneMoreTaken(src, t, buffered, w, numFifo, control, issued, bank);
    assert t + buffered == t + w + |bank|;
    if numFifo == 1 {
      OneBank(src, t + w, w, control, issued);
    } else {
      TwoBanks(src, t + w, w, numFifo, control, issued, bank);
    }
  }

  /** Single bank: the packet that goes out is the first of the rest. */
  lemma OneBank(src: seq<byte>, p: nat, w: nat, control: bool, issued: seq<seq<byte>>)
    requires 0 < w && p <= |src| && issued + Split(src[p..], w, control) == Split(src, w, control)
    ensures var n := First(src[p..], w); Going(src, p, n, w, 1, control, issued + [src[p..p + n]], [])
  {
    hide Split;
    assert (issued + [src[p..p + First(src[p..], w)]])[..|issued|] == issued;
  }

  /** Two banks: the packet that was prepared goes out, the one behind it is prepared. */
  lemma TwoBanks(src: seq<byte>, p: nat, w: nat, numFifo: nat, control: bool, issued: seq<seq<byte>>, bank: seq<byte>)
    requires 0 < w && numFifo > 1 && p <= |src| && issued + Split(src[p..], w, control) == Split(src, w, control)
    requires bank == src[p..][..First(src[p..], w)]
    ensures var q := p + |bank|; var n := First(src[q..], w);
            Going(src, p, |bank| + n, w, numFifo, control, issued + [bank], src[q..q + n])
  {
    hide Split;
    var rest, q := src[p..], p + |bank|;
    assert (issued + [bank])[..|issued|] == issued;
    assert rest[|bank|..] == src[q..];
    assert src[q..q + First(src[q..], w)] == Ahead(rest, w, numFifo);
  }

  // ---------------------------------------------------------------- endings

  datatype Status = Success | Locked | Aborted | Reset

  /** How a transfer ended: with its callback, without one because none was given, or without a word. */
  datatype Ending = Called(status: Status, transferred: nat, left: nat) | Silent | Dropped

  /** An invocation of the callback of transfer number id. */
  datatype Call = Call(id: nat, status: Status, transferred: nat, left: nat)

  /** The callbacks that a record of endings stands for. */
  function CallsOf(ends: seq<Ending>): seq<Call> {
    if ends == [] then []
    else
      var e := ends[|ends| - 1];
      CallsOf(ends[..|ends| - 1]) + if e.Called? then [Call(|ends| - 1, e.status, e.transferred, e.left)] else []
  }

  lemma CallsOfSnoc(ends: seq<Ending>, e: Ending)
    ensures CallsOf(ends + [e])
         == CallsOf(ends) + if e.Called? then [Call(|ends|, e.status, e.transferred, e.left)] else []
  {
    assert (ends + [e])[..|ends|] == ends;
  }

  /** How many of the calls are for transfer number id. */
  function CallsFor(calls: seq<Call>, id: nat): nat {
    if calls == [] then 0
    else CallsFor(calls[..|calls| - 1], id) + if calls[|calls| - 1].id == id then 1 else 0
  }

  lemma CallsForSnoc(calls: seq<Call>, c: Call, id: nat)
    ensures CallsFor(calls + [c], id) == CallsFor(calls, id) + if c.id == id then 1 else 0
  {
    assert (calls + [c])[..|calls|] == calls;
  }

  /** Each transfer has its callback invoked at most once: once if it ended so, not at all otherwise. */
  lemma {:induction false} OneCallEach(ends: seq<Ending>, id: nat)
    ensures CallsFor(CallsOf(ends), id) == if id < |ends| && ends[id].Called? then 1 else 0
  {
    if ends != [] {
      var init, e := ends[..|ends| - 1], ends[|ends| - 1];
      OneCallEach(init, id);
      if e.Called? {
        CallsForSnoc(CallsOf(init), Call(|init|, e.status, e.transferred, e.left), id);
      } else {
        assert CallsOf(ends) == CallsOf(init);
      }
    }
  }

  /** Whether a transfer that came with or without a callback may have ended so. */
  predicate Fits(wanted: bool, e: Ending) {
    (e.Called? ==> wanted) && (e.Silent? ==> !wanted)
  }

  /** Every accepted transfer but a pending one has ended once, and the callbacks are those of the endings. */
  predicate LedgerOk(busy: bool, callback: bool, wanted: seq<bool>, ends: seq<Ending>, calls: seq<Call>) {
    && |wanted| == |ends| + (if busy then 1 else 0)
    && (busy ==> wanted[|ends|] == callback)
    && (forall i | 0 <= i < |ends| :: Fits(wanted[i], ends[i]))
    && calls == CallsOf(ends)
  }

  /** Without a pending transfer the callback field does not matter. */
  lemma LedgerIdle(callback: bool, wanted: seq<bool>, ends: seq<Ending>, calls: seq<Call>, cb: bool)
    requires LedgerOk(false, callback, wanted, ends, calls)
    ensures LedgerOk(false, cb, wanted, ends, calls)
  {
  }

  lemma LedgerAccepts(callback: bool, wanted: seq<bool>, ends: seq<Ending>, calls: seq<Call>, cb: bool)
    requires LedgerOk(false, callback, wanted, ends, calls)
    ensures LedgerOk(true, cb, wanted + [cb], ends, calls)
  {
  }

  lemma LedgerEnds(callback: bool, wanted: seq<bool>, ends: seq<Ending>, calls: seq<Call>, e: Ending)
    requires LedgerOk(true, callback, wanted, ends, calls) && Fits(callback, e)
    ensures LedgerOk(false, callback, wanted, ends + [e],
                     calls + if e.Called? then [Call(|wanted| - 1, e.status, e.transferred, e.left)] else [])
  {
    CallsOfSnoc(ends, e);
  }
}
