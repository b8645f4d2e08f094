/** The reliable state a router or relay keeps for all its (side, type) streams, updated in
    place. Each operation moves exactly one stream, by the value-level step of
    ReliableStreams; the timeout pass moves every stream, in any order. */
module ReliableOwner {
  import opened Bytes
  import opened Packets
  import opened MapPasses
  import opened ReliableStreams

  /** What the window needs to know of a side. */
  datatype ReliableSide = ReliableSide(hasSerializedTx: bool, reliableEnabled: bool)

  /** An entry of reliable_released_rx. */
  datatype ReleasedItem<+P, +B> = ReleasedItem(pkt: P, side: int, wire: B)

  /** A control packet waiting at the front of the transmit queue. */
  datatype Control = Control(side: int, ty: uint32, reply: Reply)

  datatype SendResult = SendOk | WindowFull | TransmitFailed

  /** reliable_key: the side in the high word, the type in the low word. */
  function Key(side: int, ty: uint32): (k: int)
    requires -0x8000_0000 <= side < 0x8000_0000
    ensures 0 <= k < TWO64
  {
    side % TWO32 * TWO32 + ty
  }

  /** Streams never share a key. */
  lemma KeyInjective(a: int, x: uint32, b: int, y: uint32)
    requires -0x8000_0000 <= a < 0x8000_0000 && -0x8000_0000 <= b < 0x8000_0000
    requires Key(a, x) == Key(b, y)
    ensures a == b && x == y
  {}

  /** Both parts of a key can be read back from it. */
  lemma KeyParts(side: int, ty: uint32)
    requires 0 <= side < 0x8000_0000
    ensures Key(side, ty) / TWO32 == side && Key(side, ty) % TWO32 == ty
  {}

  function ReleasedItems<P, B>(side: int, out: seq<Release<P, B>>): (r: seq<ReleasedItem<P, B>>)
    ensures |r| == |out| && forall i :: 0 <= i < |out| ==> r[i] == ReleasedItem(out[i].pkt, side, out[i].wire)
  {
    if out == [] then [] else [ReleasedItem(out[0].pkt, side, out[0].wire)] + ReleasedItems(side, out[1..])
  }

  lemma DrainStep<P, B>(side: int, rx: RxState<P, B>)
    requires rx.expectedSeq in rx.buffered
    ensures var s := rx.expectedSeq;
            var next := RxState(NextSeq(s), s, rx.buffered - {s});
            && |next.buffered| < |rx.buffered|
            && Drain(rx).rx == Drain(next).rx
            && ReleasedItems(side, Drain(rx).out)
               == [ReleasedItem(rx.buffered[s].pkt, side, rx.buffered[s].wire)] + ReleasedItems(side, Drain(next).out)
  {}

  /** Replies are pushed to the front one after the other. */
  function PushFront(side: int, ty: uint32, replies: seq<Reply>, queue: seq<Control>): seq<Control>
    decreases |replies|
  {
    if replies == [] then queue else PushFront(side, ty, replies[1..], [Control(side, ty, replies[0])] + queue)
  }

  lemma PushPair(side: int, ty: uint32, a: Reply, b: Reply, queue: seq<Control>)
    ensures PushFront(side, ty, [a, b], queue) == [Control(side, ty, b)] + ([Control(side, ty, a)] + queue)
  {
    assert [a, b][1..] == [b] && [b][1..] == [];
    assert PushFront(side, ty, [b], [Control(side, ty, a)] + queue)
        == PushFront(side, ty, [], [Control(side, ty, b)] + ([Control(side, ty, a)] + queue));
  }

  // ---------------------------------------------------------------- what the timeout pass offers

  /** The numbers whose frames the timeout pass offers to the transmit callback, whatever it answers. */
  function Offered<B>(cfg: Config, tx: TxState<B>, seqs: seq<uint32>, now: uint64, ok: uint32 -> bool)
    : (r: seq<uint32>)
    ensures forall i :: 0 <= i < |r| ==> r[i] in tx.sent
    decreases |seqs|
  {
    if seqs == [] then []
    else
      var s := seqs[0];
      var rest := Offered(cfg, Expire(cfg, tx, s, now, ok(s)), seqs[1..], now, ok);
      if s in tx.sent && Due(cfg, tx.sent[s], now) && tx.sent[s].retries < cfg.maxRetries then [s] + rest else rest
  }

  /** Entry e waits for a timeout resend: not queued, not acknowledged in part, its timer run out, retries left. */
  predicate Overdue<B>(cfg: Config, e: Sent<B>, now: uint64) {
    && !e.queued && !e.partialAcked && (now - e.lastSendMs) % TWO64 >= cfg.retransmitMs
    && e.retries < cfg.maxRetries
  }

  ghost predicate NoRepeats<T>(s: seq<T>) { forall i, j :: 0 <= i < j < |s| ==> s[i] != s[j] }

  /** One entry's fate leaves the other entries as they are. */
  lemma ExpireOthers<B>(cfg: Config, tx: TxState<B>, s: uint32, now: uint64, ok: bool, n: uint32)
    requires n != s
    ensures n in Expire(cfg, tx, s, now, ok).sent <==> n in tx.sent
    ensures n in tx.sent ==> Expire(cfg, tx, s, now, ok).sent[n] == tx.sent[n]
  {}

  lemma OverdueIsDue<B>(cfg: Config, e: Sent<B>, now: uint64)
    ensures Overdue(cfg, e, now) <==> Due(cfg, e, now) && e.retries < cfg.maxRetries
  {}

  /** The pass offers exactly the overdue entries that are listed. */
  lemma {:induction false} OfferedExact<B>(
    cfg: Config, tx: TxState<B>, seqs: seq<uint32>, now: uint64, ok: uint32 -> bool, n: uint32)
    ensures n in Offered(cfg, tx, seqs, now, ok) <==> n in seqs && n in tx.sent && Overdue(cfg, tx.sent[n], now)
    decreases |seqs|
  {
    if seqs != [] {
      var s := seqs[0];
      var next := Expire(cfg, tx, s, now, ok(s));
      OfferedExact(cfg, next, seqs[1..], now, ok, n);
      if n != s { ExpireOthers(cfg, tx, s, now, ok(s), n); }
      assert seqs == [s] + seqs[1..];
      if n in tx.sent { OverdueIsDue(cfg, tx.sent[n], now); }
    }
  }

  /** Each of them once and in the order of the list, if the list is ascending. */
  lemma {:induction false} OfferedAscending<B>(
    cfg: Config, tx: TxState<B>, seqs: seq<uint32>, now: uint64, ok: uint32 -> bool)
    requires Ascending(seqs)
    ensures Ascending(Offered(cfg, tx, seqs, now, ok))
    decreases |seqs|
  {
    if seqs != [] {
      var s := seqs[0];
      var next := Expire(cfg, tx, s, now, ok(s));
      OfferedAscending(cfg, next, seqs[1..], now, ok);
      forall y | y in Offered(cfg, next, seqs[1..], now, ok) ensures s < y {
        OfferedExact(cfg, next, seqs[1..], now, ok, y);
      }
      assert ([s] + Offered(cfg, next, seqs[1..], now, ok))[1..] == Offered(cfg, next, seqs[1..], now, ok);
    }
  }

  lemma {:induction false} OfferedOnce<B>(
    cfg: Config, tx: TxState<B>, seqs: seq<uint32>, now: uint64, ok: uint32 -> bool)
    requires NoRepeats(seqs)
    ensures NoRepeats(Offered(cfg, tx, seqs, now, ok))
    decreases |seqs|
  {
    if seqs != [] {
      var s, rest := seqs[0], seqs[1..];
      var next := Expire(cfg, tx, s, now, ok(s));
      OfferedOnce(cfg, next, rest, now, ok);
      OfferedExact(cfg, next, rest, now, ok, s);
      assert s !in rest;
    }
  }

  /** The stored frames of the given numbers, for one side. */
  function FramesOf<B>(side: int, sent: map<uint32, Sent<B>>, ns: seq<uint32>): (r: seq<(int, B)>)
    requires forall i :: 0 <= i < |ns| ==> ns[i] in sent
  {
    seq(|ns|, i requires 0 <= i < |ns| => (side, sent[ns[i]].bytes))
  }

  /** A log of (key, number) pairs over the streams of `was`, and the frames offered for them. */
  ghost predicate Logged<B>(was: map<int, TxState<B>>, log: seq<(int, uint32)>, frames: seq<(int, B)>) {
    && |frames| == |log|
    && forall j :: 0 <= j < |log| ==>
         && log[j].0 in was && log[j].1 in was[log[j].0].sent
         && frames[j] == (log[j].0 / TWO32, was[log[j].0].sent[log[j].1].bytes)
  }

  ghost function Keyed(key: int, ns: seq<uint32>): seq<(int, uint32)> {
    seq(|ns|, i requires 0 <= i < |ns| => (key, ns[i]))
  }

  /** The log lists what is overdue in the streams visited. */
  ghost predicate Lists<B>(cfg: Config, was: map<int, TxState<B>>, visited: set<int>, now: uint64,
                           log: seq<(int, uint32)>)
  {
    forall p :: p in log <==>
      && p.0 in visited && p.0 in was
      && p.1 in was[p.0].sentOrder && p.1 in was[p.0].sent && Overdue(cfg, was[p.0].sent[p.1], now)
  }

  ghost predicate OrdersDistinct<B>(was: map<int, TxState<B>>) {
    forall key :: key in was ==> NoRepeats(was[key].sentOrder)
  }

  /** One more stream is visited. */
  lemma LogGrows<B>(cfg: Config, was: map<int, TxState<B>>, visited: set<int>, now: uint64, log: seq<(int, uint32)>,
                    frames: seq<(int, B)>, key: int, ok: uint32 -> bool)
    requires key in was && key !in visited
    requires Logged(was, log, frames) && Lists(cfg, was, visited, now, log)
    ensures var ns := Offered(cfg, was[key], was[key].sentOrder, now, ok);
            && Logged(was, log + Keyed(key, ns), frames + FramesOf(key / TWO32, was[key].sent, ns))
            && Lists(cfg, was, visited + {key}, now, log + Keyed(key, ns))
            && (OrdersDistinct(was) && NoRepeats(log) ==> NoRepeats(log + Keyed(key, ns)))
  {
    var ns := Offered(cfg, was[key], was[key].sentOrder, now, ok);
    forall p
      ensures p in log + Keyed(key, ns) <==>
                && p.0 in visited + {key} && p.0 in was
                && p.1 in was[p.0].sentOrder && p.1 in was[p.0].sent && Overdue(cfg, was[p.0].sent[p.1], now)
    {
      OfferedExact(cfg, was[key], was[key].sentOrder, now, ok, p.1);
      KeyedHas(key, ns, p);
    }
    if OrdersDistinct(was) && NoRepeats(log) {
      OfferedOnce(cfg, was[key], was[key].sentOrder, now, ok);
      KeyedOnce(log, key, ns);
    }
  }

  lemma KeyedHas(key: int, ns: seq<uint32>, p: (int, uint32))
    ensures p in Keyed(key, ns) <==> p.0 == key && p.1 in ns
  {
    if p.0 == key && p.1 in ns {
      var i :| 0 <= i < |ns| && ns[i] == p.1;
      assert Keyed(key, ns)[i] == p;
    }
  }

  lemma KeyedOnce(log: seq<(int, uint32)>, key: int, ns: seq<uint32>)
    requires NoRepeats(log) && NoRepeats(ns) && forall j :: 0 <= j < |log| ==> log[j].0 != key
    ensures NoRepeats(log + Keyed(key, ns))
  {}

  lemma Regroup<T>(a: seq<T>, b: seq<T>, c: seq<T>)
    ensures a + b + c == a + (b + c)
  {}

  lemma Remaining(usable: set<int>, todo: set<int>)
    ensures usable <= todo ==> usable - todo == {}
    ensures todo == {} ==> usable - todo == usable
  {}

  lemma Remaining1(usable: set<int>, todo: set<int>, key: int)
    requires key in todo
    ensures usable - (todo - {key}) == if key in usable then usable - todo + {key} else usable - todo
  {}

  /** The pass while the streams in `visited` have taken it: the others are as they were. */
  ghost predicate Passed<B>(cfg: Config, was: map<int, TxState<B>>, tx: map<int, TxState<B>>, visited: set<int>,
                            now: uint64, ok: int -> uint32 -> bool, log: seq<(int, uint32)>, frames: seq<(int, B)>)
  {
    && tx.Keys == was.Keys
    && (forall key :: key in tx ==>
          tx[key] == if key in visited then ExpireAll(cfg, was[key], was[key].sentOrder, now, ok(key)) else was[key])
    && Logged(was, log, frames) && Lists(cfg, was, visited, now, log) && (OrdersDistinct(was) ==> NoRepeats(log))
  }

  lemma PassedStart<B>(cfg: Config, was: map<int, TxState<B>>, now: uint64, ok: int -> uint32 -> bool)
    ensures Passed(cfg, was, was, {}, now, ok, [], [])
  {}

  lemma PassedStep<B>(cfg: Config, was: map<int, TxState<B>>, tx: map<int, TxState<B>>, visited: set<int>,
                      now: uint64, ok: int -> uint32 -> bool, log: seq<(int, uint32)>, frames: seq<(int, B)>, key: int)
    requires Passed(cfg, was, tx, visited, now, ok, log, frames) && key in tx && key !in visited
    ensures var ns := Offered(cfg, tx[key], tx[key].sentOrder, now, ok(key));
            Passed(cfg, was, tx[key := ExpireAll(cfg, tx[key], tx[key].sentOrder, now, ok(key))], visited + {key}, now,
                   ok, log + Keyed(key, ns), frames + FramesOf(key / TWO32, tx[key].sent, ns))
  {
    LogGrows(cfg, was, visited, now, log, frames, key, ok(key));
  }

  /** The loop over one stream's window, i entries done: the pass still to come gives the whole pass. */
  ghost predicate Underway<B>(cfg: Config, tx: TxState<B>, t: TxState<B>, i: nat, side: int, frames: seq<(int, B)>,
                              now: uint64, ok: uint32 -> bool)
  {
    var seqs, all := tx.sentOrder, Offered(cfg, tx, tx.sentOrder, now, ok);
    && i <= |seqs| && |frames| <= |all|
    && ExpireAll(cfg, t, seqs[i..], now, ok) == ExpireAll(cfg, tx, seqs, now, ok)
    && Offered(cfg, t, seqs[i..], now, ok) == all[|frames|..]
    && (forall n :: n in t.sent ==> n in tx.sent && t.sent[n].bytes == tx.sent[n].bytes)
    && (forall j :: 0 <= j < |frames| ==> frames[j] == (side, tx.sent[all[j]].bytes))
  }

  lemma UnderwayStep<B>(cfg: Config, tx: TxState<B>, t: TxState<B>, i: nat, side: int, frames: seq<(int, B)>,
                        now: uint64, ok: uint32 -> bool, s: uint32)
    requires i < |tx.sentOrder| && s == tx.sentOrder[i] && Underway(cfg, tx, t, i, side, frames, now, ok)
    ensures Underway(cfg, tx, Expire(cfg, t, s, now, ok(s)), i + 1, side,
                     if s in t.sent && Due(cfg, t.sent[s], now) && t.sent[s].retries < cfg.maxRetries
                     then frames + [(side, t.sent[s].bytes)] else frames,
                     now, ok)
  {
    var seqs, all := tx.sentOrder, Offered(cfg, tx, tx.sentOrder, now, ok);
    assert seqs[i..][0] == s && seqs[i..][1..] == seqs[i + 1..];
    if s in t.sent && Due(cfg, t.sent[s], now) && t.sent[s].retries < cfg.maxRetries {
      assert all[|frames|..][0] == s && all[|frames|..][1..] == all[|frames| + 1..];
    }
  }

  method ExpireEntries<B>(cfg: Config, tx: TxState<B>, side: int, now: uint64, ok: uint32 -> bool)
    returns (t: TxState<B>, frames: seq<(int, B)>)
    ensures t == ExpireAll(cfg, tx, tx.sentOrder, now, ok)
    ensures frames == FramesOf(side, tx.sent, Offered(cfg, tx, tx.sentOrder, now, ok))
  {
    t, frames := tx, [];
    var seqs := tx.sentOrder;
    var i := 0;
    while i < |seqs|
      invariant Underway(cfg, tx, t, i, side, frames, now, ok)
    {
      var s := seqs[i];
      UnderwayStep(cfg, tx, t, i, side, frames, now, ok, s);
      if s in t.sent && Due(cfg, t.sent[s], now) {
        var e := t.sent[s];
        if e.retries >= cfg.maxRetries {
          t := t.(sent := t.sent - {s}, sentOrder := Without(t.sentOrder, s));
        } else {
          frames := frames + [(side, e.bytes)];
          if ok(s) { t := t.(sent := t.sent[s := e.(lastSendMs := now, retries := Inc32(e.retries))]); }
        }
      }
      i := i + 1;
    }
  }

  class Owner<P, B> {
    const cfg: Config
    var sides: seq<ReliableSide>
    var tx: map<int, TxState<B>>
    var rx: map<int, RxState<P, B>>
    var releasedRx: seq<ReleasedItem<P, B>>
    var control: seq<Control>
    var outbox: seq<(int, B)>   // frames offered to the transmit callbacks, oldest first

    constructor (cfg: Config, sides: seq<ReliableSide>)
      ensures this.cfg == cfg && this.sides == sides
      ensures tx == map[] && rx == map[] && releasedRx == [] && control == [] && outbox == []
    {
      this.cfg, this.sides := cfg, sides;
      tx, rx, releasedRx, control, outbox := map[], map[], [], [], [];
    }

    predicate CanTransmit(side: int)
      reads this`sides
    {
      0 <= side < |sides| && sides[side].hasSerializedTx
    }

    predicate CanReply(side: int)
      reads this`sides
    {
      CanTransmit(side) && sides[side].reliableEnabled
    }

    function TxOf(key: int): TxState<B>
      reads this`tx
    {
      if key in tx then tx[key] else InitialTx()
    }

    function RxOf(key: int): RxState<P, B>
      reads this`rx
    {
      if key in rx then rx[key] else InitialRx()
    }

    method HandleAck(key: int, ordered: bool, ack: uint32)
      modifies this`tx
      ensures tx == if key in old(tx) then old(tx)[key := Acknowledge(ordered, old(tx)[key], ack)] else old(tx)
    {
      if key !in tx { return; }
      var t := tx[key];
      if !ordered {
        t := t.(sent := t.sent - {ack}, sentOrder := Without(t.sentOrder, ack));
      } else {
        while t.sentOrder != [] && t.sentOrder[0] <= ack
          invariant PopAcked(t, ack) == PopAcked(old(tx)[key], ack)
          decreases |t.sentOrder|
        {
          t := t.(sent := t.sent - {t.sentOrder[0]}, sentOrder := t.sentOrder[1..]);
        }
      }
      tx := tx[key := t];
    }

    method HandlePartialAck(key: int, s: uint32)
      modifies this`tx
      ensures tx == if key in old(tx) then old(tx)[key := MarkPartial(old(tx)[key], s)] else old(tx)
    {
      if key in tx && s in tx[key].sent {
        var t := tx[key];
        tx := tx[key := t.(sent := t.sent[s := t.sent[s].(partialAcked := true)])];
      }
    }

    method HandlePacketRequest(side: int, ty: uint32, s: uint32, now: uint64)
      requires -0x8000_0000 <= side < 0x8000_0000
      modifies this`tx, this`outbox
      ensures var key := Key(side, ty);
              if CanTransmit(side) && key in old(tx) && s in old(tx)[key].sent
              then tx == old(tx)[key := Resend(old(tx)[key], s, now)]
                   && outbox == old(outbox) + [(side, old(tx)[key].sent[s].bytes)]
              else tx == old(tx) && outbox == old(outbox)
    {
      var key := Key(side, ty);
      if side < 0 || side >= |sides| || key !in tx || s !in tx[key].sent { return; }
      if sides[side].hasSerializedTx {
        var t := tx[key];
        var e := t.sent[s];
        outbox := outbox + [(side, e.bytes)];
        tx := tx[key := t.(sent := t.sent[s := Sent(e.bytes, now, Inc32(e.retries), false, false)])];
      }
    }

    method QueueReply(side: int, ty: uint32, reply: Reply)
      modifies this`control
      ensures control == if CanReply(side) then [Control(side, ty, reply)] + old(control) else old(control)
    {
      if CanReply(side) { control := [Control(side, ty, reply)] + control; }
    }

    /** process_reliable_ingress_impl: `deliver` is its return value. */
    method Ingress(side: int, ty: uint32, ordered: bool, header: Option<Header>, pkt: P, wire: B)
      returns (deliver: bool)
      requires -0x8000_0000 <= side < 0x8000_0000
      modifies this`tx, this`rx, this`releasedRx, this`control
      ensures header.None? || !Bit(header.value.flags, FLAG_ACK_ONLY) ==> tx == old(tx)
      ensures header.None? ==> deliver && rx == old(rx) && releasedRx == old(releasedRx) && control == old(control)
      ensures header.Some? && Bit(header.value.flags, FLAG_ACK_ONLY) ==>
                && !deliver && rx == old(rx) && releasedRx == old(releasedRx) && control == old(control)
                && var key := Key(side, ty);
                   tx == if key in old(tx) then old(tx)[key := Acknowledge(ordered, old(tx)[key], header.value.ack)]
                       else old(tx)
      ensures header.Some? && !Bit(header.value.flags, FLAG_ACK_ONLY) ==>
                var r := Accept(cfg, old(RxOf(Key(side, ty))), header.value, pkt, wire);
                && deliver == r.deliver
                && releasedRx == old(releasedRx) + ReleasedItems(side, r.out)
                && control == (if CanReply(side) then PushFront(side, ty, r.replies, old(control)) else old(control))
                && rx == if Bit(header.value.flags, FLAG_UNSEQUENCED) then old(rx) else old(rx)[Key(side, ty) := r.rx]
    {
      if header.None? { return true; }
      var h, key := header.value, Key(side, ty);
      if Bit(h.flags, FLAG_ACK_ONLY) {
        HandleAck(key, ordered, h.ack);
        return false;
      }
      if Bit(h.flags, FLAG_UNSEQUENCED) {
        assert ReleasedItems<P, B>(side, []) == [];
        return true;
      }
      deliver := IngressSequenced(side, ty, h, pkt, wire);
    }

    method IngressSequenced(side: int, ty: uint32, h: Header, pkt: P, wire: B) returns (deliver: bool)
      requires -0x8000_0000 <= side < 0x8000_0000
      requires !Bit(h.flags, FLAG_ACK_ONLY) && !Bit(h.flags, FLAG_UNSEQUENCED)
      modifies this`rx, this`releasedRx, this`control
      ensures var r := Accept(cfg, old(RxOf(Key(side, ty))), h, pkt, wire);
              && deliver == r.deliver
              && releasedRx == old(releasedRx) + ReleasedItems(side, r.out)
              && control == (if CanReply(side) then PushFront(side, ty, r.replies, old(control)) else old(control))
              && rx == old(rx)[Key(side, ty) := r.rx]
    {
      var key := Key(side, ty);
      var state := RxOf(key);
      if Bit(h.flags, FLAG_UNORDERED) {
        rx := rx[key := state.(lastAck := h.seqno)];
        QueueReply(side, ty, AckReply(h.seqno));
        return true;
      }
      if h.seqno < state.expectedSeq {
        var last := if state.expectedSeq > 0 then state.expectedSeq - 1 else 0;
        rx := rx[key := state.(lastAck := last)];
        QueueReply(side, ty, AckReply(last));
        return false;
      }
      if h.seqno > state.expectedSeq {
        if |state.buffered| < cfg.maxPending && h.seqno !in state.buffered {
          rx := rx[key := state.(buffered := state.buffered[h.seqno := Buffered(pkt, wire)])];
        } else {
          rx := rx[key := state];
        }
        QueueReply(side, ty, PartialAckReply(h.seqno));
        QueueReply(side, ty, RequestReply(state.expectedSeq));
        PushPair(side, ty, PartialAckReply(h.seqno), RequestReply(state.expectedSeq), old(control));
        return false;
      }
      state := state.(expectedSeq := NextSeq(state.expectedSeq), lastAck := h.seqno);
      state := DrainInto(side, state);
      rx := rx[key := state];
      QueueReply(side, ty, AckReply(state.lastAck));
      return true;
    }

    /** The drain loop: extracts buffered packets for as long as the expected one is there. */
    method DrainInto(side: int, start: RxState<P, B>) returns (state: RxState<P, B>)
      modifies this`releasedRx
      ensures state == Drain(start).rx
      ensures releasedRx == old(releasedRx) + ReleasedItems(side, Drain(start).out)
    {
      state := start;
      while state.expectedSeq in state.buffered
        invariant Drain(start).rx == Drain(state).rx
        invariant old(releasedRx) + ReleasedItems(side, Drain(start).out)
                  == releasedRx + ReleasedItems(side, Drain(state).out)
        decreases |state.buffered|
      {
        var s := state.expectedSeq;
        var item := state.buffered[s];
        DrainStep(side, state);
        ghost var next := RxState(NextSeq(s), s, state.buffered - {s});
        ghost var before, rest := releasedRx, ReleasedItems(side, Drain(next).out);
        assert before + ([ReleasedItem(item.pkt, side, item.wire)] + rest)
            == before + [ReleasedItem(item.pkt, side, item.wire)] + rest;
        releasedRx := releasedRx + [ReleasedItem(item.pkt, side, item.wire)];
        state := RxState(NextSeq(s), s, state.buffered - {s});
      }
      assert ReleasedItems<P, B>(side, []) == [];
    }

    /** send_serialized_with_reliable. `ok` is the callback's answer. */
    method Send(side: int, ty: uint32, reliable: bool, ordered: bool, pkt: P, now: uint64, ok: bool, plain: P -> B,
                encode: (P, Header) -> B) returns (r: SendResult)
      requires 0 <= side < |sides| && |sides| <= 0x8000_0000
      modifies this`tx, this`outbox
      ensures !CanTransmit(side) ==> r == SendOk && tx == old(tx) && outbox == old(outbox)
      ensures CanTransmit(side) && !(CanReply(side) && reliable) ==>
                tx == old(tx) && outbox == old(outbox) + [(side, plain(pkt))]
                    && r == (if ok then SendOk else TransmitFailed)
      ensures CanReply(side) && reliable ==>
                var key := Key(side, ty);
                var t := old(TxOf(key));
                if |t.sent| >= cfg.maxPending then r == WindowFull && tx == old(tx)[key := t] && outbox == old(outbox)
                else
                  var b := encode(pkt, Header(if ordered then 0 else 2, t.nextSeq, 0));
                  && tx == old(tx)[key := Assign(t, b, now, ok)]
                  && outbox == old(outbox) + [(side, b)]
                  && r == if ok then SendOk else TransmitFailed
    {
      if !sides[side].hasSerializedTx { return SendOk; }
      if !sides[side].reliableEnabled || !reliable {
        outbox := outbox + [(side, plain(pkt))];
        return if ok then SendOk else TransmitFailed;
      }
      var key := Key(side, ty);
      var t := TxOf(key);
      tx := tx[key := t];
      if |t.sent| >= cfg.maxPending { return WindowFull; }
      var bytes := encode(pkt, Header(if ordered then 0 else 2, t.nextSeq, 0));
      var s := t.nextSeq;
      t := t.(nextSeq := NextSeq(s));
      outbox := outbox + [(side, bytes)];
      if ok {
        t := t.(sentOrder := t.sentOrder + [s]);
        if s !in t.sent { t := t.(sent := t.sent[s := Sent(bytes, now, 0, false, false)]); }
      }
      tx := tx[key := t];
      return if ok then SendOk else TransmitFailed;
    }

    /** The timeout pass over one stream. */
    method ExpireStream(side: int, key: int, now: uint64, ok: uint32 -> bool)
      requires key in tx
      modifies this`tx, this`outbox
      ensures tx == old(tx)[key := ExpireAll(cfg, old(tx)[key], old(tx)[key].sentOrder, now, ok)]
      ensures outbox == old(outbox) + FramesOf(side, old(tx)[key].sent,
                                               Offered(cfg, old(tx)[key], old(tx)[key].sentOrder, now, ok))
    {
      var t, frames := ExpireEntries(cfg, tx[key], side, now, ok);
      tx := tx[key := t];
      outbox := outbox + frames;
    }

    /** do_reliable_timeouts: each stream on a usable side takes its pass once; in which order the streams are
        visited makes no difference to the states. `log` names the frames offered, in the order they were. */
    method Timeouts(now: uint64, ok: int -> uint32 -> bool) returns (ghost log: seq<(int, uint32)>)
      modifies this`tx, this`outbox
      ensures tx.Keys == old(tx).Keys
      ensures forall key :: key in tx ==>
                tx[key] == if CanTransmit(key / TWO32)
                           then ExpireAll(cfg, old(tx)[key], old(tx)[key].sentOrder, now, ok(key))
                           else old(tx)[key]
      ensures |outbox| == |old(outbox)| + |log| && old(outbox) <= outbox
      ensures forall j :: 0 <= j < |log| ==>
                && log[j].0 in old(tx) && log[j].1 in old(tx)[log[j].0].sent
                && outbox[|old(outbox)| + j] == (log[j].0 / TWO32, old(tx)[log[j].0].sent[log[j].1].bytes)
      ensures forall key: int, n: uint32 :: (key, n) in log <==>
                && key in old(tx) && CanTransmit(key / TWO32)
                && n in old(tx)[key].sentOrder && n in old(tx)[key].sent && Overdue(cfg, old(tx)[key].sent[n], now)
      ensures OrdersDistinct(old(tx)) ==> NoRepeats(log)
    {
      ghost var frames, usable;
      log, frames, usable := TimeoutPass(now, ok);
    }

    method TimeoutPass(now: uint64, ok: int -> uint32 -> bool)
      returns (ghost log: seq<(int, uint32)>, ghost frames: seq<(int, B)>, ghost usable: set<int>)
      modifies this`tx, this`outbox
      ensures outbox == old(outbox) + frames
      ensures forall key :: key in usable <==> key in old(tx) && CanTransmit(key / TWO32)
      ensures Passed(cfg, old(tx), tx, usable, now, ok, log, frames)
    {
      var todo: set<int> := tx.Keys;
      usable := set key | key in tx && CanTransmit(key / TWO32);
      log, frames := [], [];
      PassedStart(cfg, tx, now, ok);
      Remaining(usable, todo);
      while todo != {}
        invariant todo <= old(tx).Keys && outbox == old(outbox) + frames
        invariant Passed(cfg, old(tx), tx, usable - todo, now, ok, log, frames)
        decreases |todo|
      {
        SomeElement(todo);
        var key :| key in todo;
        Remaining1(usable, todo, key);
        if CanTransmit(key / TWO32) {
          log, frames := VisitStream(key, now, ok, old(tx), old(outbox), usable - todo, log, frames);
        }
        todo := todo - {key};
      }
      Remaining(usable, todo);
    }

    /** One stream of the pass. */
    method VisitStream(key: int, now: uint64, ok: int -> uint32 -> bool, ghost was: map<int, TxState<B>>,
                       ghost base: seq<(int, B)>, ghost visited: set<int>, ghost log: seq<(int, uint32)>,
                       ghost frames: seq<(int, B)>)
      returns (ghost log': seq<(int, uint32)>, ghost frames': seq<(int, B)>)
      requires Passed(cfg, was, tx, visited, now, ok, log, frames) && key in was && key !in visited
      requires outbox == base + frames
      modifies this`tx, this`outbox
      ensures Passed(cfg, was, tx, visited + {key}, now, ok, log', frames')
      ensures outbox == base + frames'
    {
      ghost var ns := Offered(cfg, tx[key], tx[key].sentOrder, now, ok(key));
      ghost var more := FramesOf(key / TWO32, tx[key].sent, ns);
      PassedStep(cfg, was, tx, visited, now, ok, log, frames, key);
      Regroup(base, frames, more);
      log', frames' := log + Keyed(key, ns), frames + more;
      ExpireStream(key / TWO32, key, now, ok(key));
    }
  }
}
