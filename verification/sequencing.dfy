/** Threads sharing one Active session, such as the caller's and the keep-alive
    one (interface_lan.go). Each exchange takes the lock twice: once to build
    the IPMI request with the next requester sequence number, once to wrap it
    into a packet with the next session sequence number; in between, any
    other thread may run. */
module Sequencing {
  import opened Bytes
  import opened Crypto
  import opened Handshake
  import opened Packets
  import opened IpmiMessage

  datatype Step =
    | Build(thread: nat, netFn: NetFn, command: byte, data: bytes)
    | Wrap(thread: nat, iv: Block)

  /** `built` are the requests in the order they were built; `pending` gives the
      request a thread has built and not yet wrapped; `origin` says which request
      each packet carries, `drawn` the value of the session's counter after each
      attempt to wrap, and `attempt` which attempt made each packet. */
  datatype World = World(ipmiSeq: byte, v20: V20, built: seq<Fields>, pending: map<nat, nat>,
                         packets: seq<Session20>, origin: seq<nat>, drawn: seq<uint32>, attempt: seq<nat>)

  function Start(q: byte, v: V20): World
  {
    World(q, v, [], map[], [], [], [], [])
  }

  /** A thread builds only when it has nothing pending, and wraps only what is
      pending; other steps do not happen. An attempt to wrap may fail. */
  function Next(e: Env, w: World, s: Step): World
    requires forall t <- w.pending :: w.pending[t] < |w.built|
  {
    match s
    case Build(t, netFn, command, data) =>
      if t in w.pending then w
      else
        var f := Fields(BMC_SA, netFn, 0, REMOTE_CONSOLE_SWID, w.ipmiSeq, 0, command, data);
        w.(ipmiSeq := NextIpmiSeq(w.ipmiSeq), built := w.built + [f], pending := w.pending[t := |w.built|])
    case Wrap(t, iv) =>
      if t !in w.pending then w
      else
        var k := w.pending[t];
        var (v, r) := GenSession20(e, w.v20, PAYLOAD_IPMI, Sealed(w.built[k]), iv);
        var w' := w.(v20 := v, pending := w.pending - {t}, drawn := w.drawn + [v.sequence]);
        if !r.Ok? then w'
        else w'.(packets := w.packets + [r.value], origin := w.origin + [k], attempt := w.attempt + [|w.drawn|])
  }

  function Run(e: Env, q: byte, v: V20, schedule: seq<Step>): (w: World)
    ensures forall t <- w.pending :: w.pending[t] < |w.built|
  {
    if schedule == [] then Start(q, v)
    else Next(e, Run(e, q, v, schedule[..|schedule| - 1]), schedule[|schedule| - 1])
  }

  // ----- requests: in every session -----

  /** The requester sequence number of the k-th request after a start at q. */
  function SequenceOf(q: byte, k: nat): (r: byte)
    requires 1 <= q <= SEQUENCE_MAX
    ensures 1 <= r <= SEQUENCE_MAX
  {
    (q as int - 1 + k) % 63 + 1
  }

  /** From the remote console, 81h, to the management controller, 20h, logical unit 0. */
  predicate IsToBmc(f: Fields)
  {
    f.responderAddr == 0x20 && f.responderLUN == 0 && f.requesterAddr == 0x81 && f.requesterLUN == 0
  }

  ghost predicate Numbered(q: byte, w: World)
    requires 1 <= q <= SEQUENCE_MAX
  {
    && w.ipmiSeq == SequenceOf(q, |w.built|)
    && (forall k :: 0 <= k < |w.built| ==> w.built[k].requesterSequence == SequenceOf(q, k) && IsToBmc(w.built[k]))
  }

  /** Each request went into one packet at most, or is still pending in one thread. */
  ghost predicate OnceEach(w: World)
  {
    && |w.origin| == |w.packets|
    && (forall i :: 0 <= i < |w.origin| ==> w.origin[i] < |w.built|)
    && (forall t <- w.pending :: w.pending[t] < |w.built| && w.pending[t] !in w.origin)
    && (forall i, j :: 0 <= i < j < |w.origin| ==> w.origin[i] != w.origin[j])
    && (forall t, u :: t in w.pending && u in w.pending && t != u ==> w.pending[t] != w.pending[u])
  }

  lemma NextOfSequence(q: byte, k: nat)
    requires 1 <= q <= SEQUENCE_MAX
    ensures SequenceOf(q, k + 1) == NextIpmiSeq(SequenceOf(q, k))
  {}

  lemma SharedEvery63(q: byte, i: nat, j: nat)
    requires 1 <= q <= SEQUENCE_MAX
    ensures SequenceOf(q, i) == SequenceOf(q, j) <==> (i - j) % 63 == 0
  {
    var a, b := q as int - 1 + i, q as int - 1 + j;
    assert a == 63 * (a / 63) + a % 63 && b == 63 * (b / 63) + b % 63;
    assert i - j == 63 * (a / 63 - b / 63) + (a % 63 - b % 63);
  }

  lemma StepKeepsRequests(e: Env, q: byte, w: World, s: Step)
    requires 1 <= q <= SEQUENCE_MAX && OnceEach(w) && Numbered(q, w)
    ensures OnceEach(Next(e, w, s)) && Numbered(q, Next(e, w, s))
  {
    hide GenSession20, SequenceOf, NextIpmiSeq;
    NextOfSequence(q, |w.built|);
    var w' := Next(e, w, s);
    assert forall k :: 0 <= k < |w.built| ==> w'.built[k] == w.built[k];
  }

  /** Every interleaving of every number of threads, in whatever session, numbers
      the requests in the order they are built and sends none of them twice. */
  lemma {:induction false} EveryScheduleKeepsRequests(e: Env, q: byte, v: V20, schedule: seq<Step>)
    requires 1 <= q <= SEQUENCE_MAX
    ensures OnceEach(Run(e, q, v, schedule)) && Numbered(q, Run(e, q, v, schedule))
  {
    hide Next, SequenceOf;
    if schedule == [] {
      StartIsNumbered(q, v);
    } else {
      var before, s := schedule[..|schedule| - 1], schedule[|schedule| - 1];
      EveryScheduleKeepsRequests(e, q, v, before);
      StepKeepsRequests(e, q, Run(e, q, v, before), s);
    }
  }

  lemma StartIsNumbered(q: byte, v: V20)
    requires 1 <= q <= SEQUENCE_MAX
    ensures OnceEach(Start(q, v)) && Numbered(q, Start(q, v))
  {}

  /** In every schedule: two requests have the same requester sequence number
      exactly when they are a multiple of 63 apart. */
  lemma RequestsShareNumberEvery63(e: Env, q: byte, v: V20, schedule: seq<Step>, i: nat, j: nat)
    requires 1 <= q <= SEQUENCE_MAX
    requires i < |Run(e, q, v, schedule).built| && j < |Run(e, q, v, schedule).built|
    ensures var b := Run(e, q, v, schedule).built;
      && 1 <= b[i].requesterSequence <= 63 && IsToBmc(b[i])
      && (b[i].requesterSequence == b[j].requesterSequence <==> (i - j) % 63 == 0)
  {
    hide Run, SequenceOf, OnceEach;
    SharedEvery63(q, i, j);
    EveryScheduleKeepsRequests(e, q, v, schedule);
  }

  // ----- session sequence numbers: in every Active session -----

  /** The counter moves on with every attempt, and each packet carries what its
      attempt drew. */
  ghost predicate Counted(v: V20, w: World)
  {
    && w.v20.state == Active
    && w.v20.sequence == (v.sequence + |w.drawn|) % 0x1_0000_0000
    && (forall k :: 0 <= k < |w.drawn| ==> w.drawn[k] == (v.sequence + k + 1) % 0x1_0000_0000)
    && |w.attempt| == |w.packets|
    && (forall i :: 0 <= i < |w.packets| ==>
          w.attempt[i] < |w.drawn| && w.packets[i].header.sequence == w.drawn[w.attempt[i]])
    && (forall i, j :: 0 <= i < j < |w.packets| ==> w.attempt[i] < w.attempt[j])
  }

  lemma AttemptDraws(e: Env, v: V20, raw: bytes, iv: Block)
    requires v.state == Active
    ensures var (w, r) := GenSession20(e, v, PAYLOAD_IPMI, raw, iv);
      && w.state == Active && w.sequence == (v.sequence + 1) % 0x1_0000_0000
      && (r.Ok? ==> r.value.header.sequence == w.sequence)
  {
    hide GenTrailer;
  }

  lemma NextSequence(s: uint32, n: nat)
    ensures ((s + n) % 0x1_0000_0000 + 1) % 0x1_0000_0000 == (s + n + 1) % 0x1_0000_0000
  {}

  lemma StepIsCounted(e: Env, v: V20, w: World, s: Step)
    requires (forall t <- w.pending :: w.pending[t] < |w.built|) && Counted(v, w)
    ensures Counted(v, Next(e, w, s))
  {
    hide GenSession20, NextIpmiSeq;
    if s.Wrap? && s.thread in w.pending {
      AttemptDraws(e, w.v20, Sealed(w.built[w.pending[s.thread]]), s.iv);
      NextSequence(v.sequence, |w.drawn|);
    }
  }

  /** Every interleaving in every Active session, whatever its algorithms and
      whether or not encryption succeeds. */
  lemma {:induction false} EveryScheduleIsCounted(e: Env, q: byte, v: V20, schedule: seq<Step>)
    requires v.state == Active
    ensures Counted(v, Run(e, q, v, schedule))
  {
    hide Next, Counted;
    if schedule == [] {
      StartIsCounted(q, v);
    } else {
      var before, s := schedule[..|schedule| - 1], schedule[|schedule| - 1];
      EveryScheduleIsCounted(e, q, v, before);
      StepIsCounted(e, v, Run(e, q, v, before), s);
    }
  }

  lemma StartIsCounted(q: byte, v: V20)
    requires v.state == Active
    ensures Counted(v, Start(q, v))
  {}

  function Numbers(packets: seq<Session20>): (n: seq<uint32>)
    ensures |n| == |packets|
  {
    seq(|packets|, i requires 0 <= i < |packets| => packets[i].header.sequence)
  }

  predicate NonzeroAndIncreasing(n: seq<uint32>)
  {
    && (forall i :: 0 <= i < |n| ==> n[i] != 0)
    && (forall i, j :: 0 <= i < j < |n| ==> n[i] < n[j])
  }

  lemma NumbersIncrease(s: uint32, n: seq<uint32>)
    requires forall i :: 0 <= i < |n| ==> n[i] == (s + i + 1) % 0x1_0000_0000
    ensures NonzeroAndIncreasing(n) <==> s + |n| < 0x1_0000_0000
  {
    if s + |n| >= 0x1_0000_0000 {
      assert n[0xffff_ffff - s as int] == 0;
    }
  }

  lemma PickedIncrease(v: V20, w: World)
    requires Counted(v, w) && NonzeroAndIncreasing(w.drawn)
    ensures NonzeroAndIncreasing(Numbers(w.packets))
  {}

  /** In every schedule in an Active session the numbers drawn, in the order of
      the attempts, increase and are never 0 exactly while the counter has not
      wrapped around; and until then so do those on the packets. */
  lemma SequencesIncreaseUntilWrap(e: Env, q: byte, v: V20, schedule: seq<Step>)
    requires v.state == Active
    ensures var w := Run(e, q, v, schedule);
      && (NonzeroAndIncreasing(w.drawn) <==> v.sequence + |w.drawn| < 0x1_0000_0000)
      && (v.sequence + |w.drawn| < 0x1_0000_0000 ==> NonzeroAndIncreasing(Numbers(w.packets)))
  {
    hide Run, NonzeroAndIncreasing, Numbers;
    EveryScheduleIsCounted(e, q, v, schedule);
    var w := Run(e, q, v, schedule);
    NumbersIncrease(v.sequence, w.drawn);
    if NonzeroAndIncreasing(w.drawn) {
      PickedIncrease(v, w);
    }
  }

  // ----- what the packets carry: in sessions with AES or no encryption -----

  /** An Active session whose packets decrypt on their own. */
  ghost predicate Serving(v: V20)
  {
    v.state == Active && KeysUsable(v) && v.algs.crypt in {CRYPT_NONE, AES_CBC_128}
  }

  /** No attempt failed, and each packet decrypts to the request it was made from. */
  ghost predicate Carried(e: Env, v: V20, w: World)
  {
    && |w.origin| == |w.packets| == |w.drawn| == |w.attempt|
    && (forall i :: 0 <= i < |w.attempt| ==> w.attempt[i] == i)
    && (forall i :: 0 <= i < |w.origin| ==> w.origin[i] < |w.built|)
    && w.v20 == v.(sequence := w.v20.sequence)
    && (forall i :: 0 <= i < |w.packets| ==> HoldsRequest(e, v, w.packets[i], w.built[w.origin[i]]))
  }

  ghost predicate HoldsRequest(e: Env, v: V20, s: Session20, f: Fields)
  {
    IsPacketFor(e, v, PAYLOAD_IPMI, Sealed(f), s)
  }

  lemma SameKeys(v: V20, n: uint32)
    requires Serving(v)
    ensures Serving(v.(sequence := n))
  {}

  /** What makes a packet right is independent of the sender's sequence counter. */
  lemma JudgedByKeys(e: Env, w: V20, v: V20, raw: bytes, s: Session20)
    requires w == v.(sequence := w.sequence) && v.algs.crypt in {CRYPT_NONE, AES_CBC_128}
    requires IsPacketFor(e, w, PAYLOAD_IPMI, raw, s)
    ensures IsPacketFor(e, v, PAYLOAD_IPMI, raw, s)
  {
    hide CbcDecrypt, Sendable, PackSession20, PackHeader20, Covered;
  }

  lemma StepIsCarried(e: Env, v: V20, w: World, s: Step)
    requires (forall t <- w.pending :: w.pending[t] < |w.built|) && Carried(e, v, w) && Serving(v)
    ensures Carried(e, v, Next(e, w, s))
  {
    hide GenSession20, IsPacketFor, NextIpmiSeq, KeysUsable;
    var w' := Next(e, w, s);
    if s.Build? {
      assert forall k :: 0 <= k < |w.built| ==> w'.built[k] == w.built[k];
    } else if s.thread in w.pending {
      var raw := Sealed(w.built[w.pending[s.thread]]);
      SameKeys(v, w.v20.sequence);
      ActivePacket(e, w.v20, PAYLOAD_IPMI, raw, s.iv);
      JudgedByKeys(e, w.v20, v, raw, GenSession20(e, w.v20, PAYLOAD_IPMI, raw, s.iv).1.value);
    }
  }

  /** Every interleaving in such a session. */
  lemma {:induction false} EveryScheduleIsCarried(e: Env, q: byte, v: V20, schedule: seq<Step>)
    requires Serving(v)
    ensures Carried(e, v, Run(e, q, v, schedule))
  {
    hide Next, Carried;
    if schedule == [] {
      StartIsCarried(e, q, v);
    } else {
      var before, s := schedule[..|schedule| - 1], schedule[|schedule| - 1];
      EveryScheduleIsCarried(e, q, v, before);
      StepIsCarried(e, v, Run(e, q, v, before), s);
    }
  }

  lemma StartIsCarried(e: Env, q: byte, v: V20)
    ensures Carried(e, v, Start(q, v))
  {}

  /** There the packets themselves increase and are never 0 exactly while the
      counter has not wrapped around. */
  lemma PacketsIncreaseUntilWrap(e: Env, q: byte, v: V20, schedule: seq<Step>)
    requires Serving(v)
    ensures var p := Run(e, q, v, schedule).packets;
      NonzeroAndIncreasing(Numbers(p)) <==> v.sequence + |p| < 0x1_0000_0000
  {
    hide Run, NonzeroAndIncreasing, HoldsRequest, KeysUsable;
    EveryScheduleIsCarried(e, q, v, schedule);
    EveryScheduleIsCounted(e, q, v, schedule);
    SequencesIncreaseUntilWrap(e, q, v, schedule);
    var w := Run(e, q, v, schedule);
    assert Numbers(w.packets) == w.drawn;
  }
}
