/** Calling Connect20 again (interface_lan.go). The loop writes every suite it
    tries into the session, where the next call takes it for the user's choice. */
module Retries {
  import opened Bytes
  import opened Crypto
  import opened Rakp
  import opened Handshake
  import opened CipherSuites

  /** The suites a call tries. */
  function Tried(l: Link, best: seq<byte>): seq<byte>
  {
    if l.v20.cipherSuiteID != CIPHER_SUITE_RESERVED then [l.v20.cipherSuiteID] else best
  }

  /** A failed loop leaves the last suite of its list in the session. */
  lemma {:induction false} FailedLoopLeavesLast(e: Env, l: Link, ids: seq<byte>)
    requires !TrySuites(e, l, ids).1
    ensures var l' := TrySuites(e, l, ids).0;
      && l'.v20.bmcKey == l.v20.bmcKey
      && l'.v20.cipherSuiteID == if ids == [] then l.v20.cipherSuiteID else ids[|ids| - 1]
    decreases |ids|
  {
    hide TrySuite;
    if ids != [] {
      AttemptKeeps(e, l, ids[0]);
      FailedLoopLeavesLast(e, TrySuite(e, l, ids[0]).0, ids[1..]);
    }
  }

  /** After a failed call that tried anything, the next call tries the last suite
      of the failed one and nothing else, whatever is discovered meanwhile. */
  lemma RetryTriesLastSuite(e: Env, l: Link, best: seq<byte>, again: seq<byte>)
    requires !Connect(e, l, best).1
    ensures var l1, tried := Connect(e, l, best).0, Tried(l, best);
      tried != [] && tried[|tried| - 1] != CIPHER_SUITE_RESERVED ==>
        Connect(e, l1, again) == TrySuites(e, l1, [tried[|tried| - 1]])
  {
    hide TrySuites;
    FailedLoopLeavesLast(e, l, Tried(l, best));
  }

  /** So, with a managed system that from now on follows the specification for
      that suite, the retry succeeds exactly when that suite is connectable. */
  lemma RetryAgrees(e: Env, b: Bmc, l: Link, best: seq<byte>, again: seq<byte>)
    requires |e.username| < 0x100 && b.kuid == Kuid(e.password) && b.kg == l.v20.bmcKey
    requires !Connect(e, l, best).1 && Tried(l, best) != []
    ensures var l1, tried := Connect(e, l, best).0, Tried(l, best);
      var a := SuiteAlgorithms(tried[|tried| - 1]);
      tried[|tried| - 1] != CIPHER_SUITE_RESERVED && GrantsAt(e, b, a, a, l1.sent) ==>
        (Connect(e, l1, again).1 <==> Connectable(a))
  {
    hide TrySuite, SuiteAlgorithms, Connectable, GrantsAt, SentKeysAgree;
    var l1, tried := Connect(e, l, best).0, Tried(l, best);
    var last := tried[|tried| - 1];
    var a := SuiteAlgorithms(last);
    FailedLoopLeavesLast(e, l, tried);
    if last != CIPHER_SUITE_RESERVED && GrantsAt(e, b, a, a, l1.sent) {
      AttemptAgrees(e, b, l1, last);
      OneSuite(e, l1, last);
    }
  }

  lemma OneSuite(e: Env, l: Link, id: byte)
    ensures TrySuites(e, l, [id]) == TrySuite(e, l, id)
  {
    hide TrySuite;
    var (l1, success) := TrySuite(e, l, id);
    assert [id][1..] == [];
    assert TrySuites(e, l1, []) == (l1, false);
  }

  /** Some call of a series succeeds. */
  predicate Succeeds(e: Env, l: Link, calls: seq<seq<byte>>)
    decreases |calls|
  {
    calls != [] && (Connect(e, l, calls[0]).1 || Succeeds(e, Connect(e, l, calls[0]).0, calls[1..]))
  }

  /** A client with suite 12 in its session never connects to a managed system
      that grants it, however often it tries. */
  lemma {:induction false} Suite12NeverConnects(e: Env, b: Bmc, l: Link, calls: seq<seq<byte>>)
    requires |e.username| < 0x100 && b.kuid == Kuid(e.password) && b.kg == l.v20.bmcKey
    requires l.v20.cipherSuiteID == 12
    requires forall h | l.sent <= h :: GrantsAt(e, b, SuiteAlgorithms(12), SuiteAlgorithms(12), h)
    ensures !Succeeds(e, l, calls)
    decreases |calls|
  {
    hide TrySuite, SuiteAlgorithms, GrantsAt, SentKeysAgree;
    if calls != [] {
      AttemptAgrees(e, b, l, 12);
      Suite12(12);
      OneSuite(e, l, 12);
      AttemptKeeps(e, l, 12);
      AttemptSendsMore(e, l, 12);
      Suite12NeverConnects(e, b, TrySuite(e, l, 12).0, calls[1..]);
    }
  }

  lemma Suite12(id: byte)
    requires id == 12
    ensures !Connectable(SuiteAlgorithms(id))
  {}

  lemma AttemptSendsMore(e: Env, l: Link, id: byte)
    ensures l.sent <= TrySuite(e, l, id).0.sent
  {
    hide SuiteAlgorithms, AuthHmac, IntegrityHmac, ValidRakp2, ValidRakp4;
  }

  /** After a failed call with the fallback list no retry connects to a managed
      system that from then on follows the specification. */
  lemma FallbackCannotBeRetried(e: Env, b: Bmc, l: Link, calls: seq<seq<byte>>)
    requires |e.username| < 0x100 && b.kuid == Kuid(e.password) && b.kg == l.v20.bmcKey
    requires l.v20.cipherSuiteID == CIPHER_SUITE_RESERVED
    ensures var (l1, success) := Connect(e, l, PREFERRED);
      !success && (forall h | l1.sent <= h :: GrantsAt(e, b, SuiteAlgorithms(12), SuiteAlgorithms(12), h))
      ==> !Succeeds(e, l1, calls)
  {
    hide TrySuites, SuiteAlgorithms, GrantsAt, Succeeds;
    var (l1, success) := Connect(e, l, PREFERRED);
    if !success && (forall h | l1.sent <= h :: GrantsAt(e, b, SuiteAlgorithms(12), SuiteAlgorithms(12), h)) {
      FailedLoopLeavesLast(e, l, PREFERRED);
      Suite12NeverConnects(e, b, l1, calls);
    }
  }

  // ----- a run in which it happens -----

  /** A managed system that follows the specification for whatever is asked. */
  function SpecAnswer(c: Suite, b: Bmc, h: seq<Sent>): Received
  {
    var n := |h|;
    if n >= 1 && h[n - 1].payloadType == OPEN_SESSION_REQUEST && |h[n - 1].payload| == 32 then
      Payload(OpenAnswer(b, h[..n - 1], h[n - 1].payload))
    else if n >= 2 && h[n - 1].payloadType == RAKP_MESSAGE_1 && |h[n - 2].payload| == 32 && |h[n - 1].payload| >= 28 then
      Payload(Rakp2Answer(c, b, h[..n - 2], h[n - 2].payload, h[n - 1].payload))
    else if n >= 3 && h[n - 1].payloadType == RAKP_MESSAGE_3 && |h[n - 3].payload| == 32 && |h[n - 2].payload| >= 28
            && |h[n - 1].payload| >= 8 then
      Payload(Rakp4Answer(c, b, h[..n - 3], h[n - 3].payload, h[n - 2].payload, h[n - 1].payload))
    else NoReply
  }

  /** It does not answer the first messages. */
  function LateAnswer(c: Suite, b: Bmc, silent: nat, h: seq<Sent>): Received
  {
    if |h| <= silent then NoReply else SpecAnswer(c, b, h)
  }

  lemma LateAnswerGrants(e: Env, b: Bmc, silent: nat, a: Algorithms, h: seq<Sent>)
    requires forall h :: e.receive(h) == LateAnswer(e.crypto, b, silent, h)
    requires |h| >= silent
    ensures GrantsAt(e, b, a, a, h)
  {
    hide OpenAnswer, Rakp2Answer, Rakp4Answer, OpenSessionRequest;
    forall r1: bytes, r3: bytes
      ensures AnswersAs(e, b, a, a, h, r1, r3)
    {
      var h1 := h + [Sent(OPEN_SESSION_REQUEST, OpenSessionRequest(CONSOLE_SESSION_ID, a))];
      var h2 := h1 + [Sent(RAKP_MESSAGE_1, r1)];
      var h3 := h2 + [Sent(RAKP_MESSAGE_3, r3)];
      assert h1[..|h1| - 1] == h && h2[..|h2| - 2] == h && h3[..|h3| - 3] == h;
    }
  }

  /** An attempt that gets no answer sends one message and changes nothing the
      agreement rests on. */
  lemma SilentAttempt(e: Env, l: Link, id: byte)
    requires forall h | |h| == |l.sent| + 1 :: e.receive(h) == NoReply
    ensures var (l', success) := TrySuite(e, l, id);
      && !success && |l'.sent| == |l.sent| + 1 && l'.v20.bmcKey == l.v20.bmcKey
  {
    hide SuiteAlgorithms;
  }

  lemma {:induction false} SilentLoop(e: Env, l: Link, ids: seq<byte>)
    requires forall h | |h| <= |l.sent| + |ids| :: e.receive(h) == NoReply
    ensures var (l', success) := TrySuites(e, l, ids);
      && !success && |l'.sent| == |l.sent| + |ids| && l'.v20.bmcKey == l.v20.bmcKey
    decreases |ids|
  {
    hide TrySuite;
    if ids != [] {
      SilentAttempt(e, l, ids[0]);
      SilentLoop(e, TrySuite(e, l, ids[0]).0, ids[1..]);
    }
  }

  /** A client whose managed system is silent for one call with the fallback
      list, eleven messages, and follows the specification from then on. */
  function WokenLate(c: Suite, name: bytes, password: bytes): Env
  {
    var b := WokenBmc(password);
    Env(c, name, password, 4, h => LateAnswer(c, b, |PREFERRED|, h), _ => ZERO_BLOCK)
  }

  function WokenBmc(password: bytes): Bmc
  {
    Bmc(Kuid(password), [], ZERO_BLOCK, _ => 1, _ => ZERO_BLOCK)
  }

  /** The first call fails, and then every retry fails, although the managed
      system now answers every suite to specification; the same client without
      the suite that was left behind would connect at once. */
  lemma RetriesFailWhereNewClientConnects(c: Suite, name: bytes, password: bytes, calls: seq<seq<byte>>)
    requires |name| < 0x100
    ensures var e, l := WokenLate(c, name, password), Link(NEW_SESSION, []);
      var (l1, success) := Connect(e, l, PREFERRED);
      && !success && !Succeeds(e, l1, calls)
      && Connect(e, l1.(v20 := l1.v20.(cipherSuiteID := CIPHER_SUITE_RESERVED)), PREFERRED).1
  {
    hide TrySuite, LateAnswer, GrantsAt, SuiteAlgorithms, Succeeds, SentKeysAgree, Connectable;
    var e, b, l := WokenLate(c, name, password), WokenBmc(password), Link(NEW_SESSION, []);
    var n := |PREFERRED|;
    forall h: seq<Sent> | |h| <= n
      ensures e.receive(h) == NoReply
    {
      SilentAtFirst(c, b, n, h);
    }
    SilentLoop(e, l, PREFERRED);
    var l1 := Connect(e, l, PREFERRED).0;
    forall h: seq<Sent> | l1.sent <= h
      ensures GrantsAt(e, b, SuiteAlgorithms(12), SuiteAlgorithms(12), h)
    {
      LateAnswerGrants(e, b, n, SuiteAlgorithms(12), h);
    }
    FallbackCannotBeRetried(e, b, l, calls);
    var reset := l1.(v20 := l1.v20.(cipherSuiteID := CIPHER_SUITE_RESERVED));
    LateAnswerGrants(e, b, n, SuiteAlgorithms(17), l1.sent);
    AttemptAgrees(e, b, reset, 17);
    PreferredConnectable(17);
    FirstSucceeds(e, reset, PREFERRED);
  }

  lemma SilentAtFirst(c: Suite, b: Bmc, n: nat, h: seq<Sent>)
    requires |h| <= n
    ensures LateAnswer(c, b, n, h) == NoReply
  {}

  lemma FirstSucceeds(e: Env, l: Link, ids: seq<byte>)
    ensures ids != [] && TrySuite(e, l, ids[0]).1 ==> TrySuites(e, l, ids).1
  {
    hide TrySuite;
  }
}
