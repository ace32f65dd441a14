/** The stub Noise session over whole runs: handshake, replay filter, and decryption between two peers. */
module NoiseRuns {
  import opened Common
  import opened LittleEndian
  import opened NoiseSession

  // ----- handshake -----

  /** A session that has made progress only through handshake messages it accepted. */
  predicate Consistent(s: Session) {
    && (s.read > 0 ==> s.remoteKnown)
    && (s.done <==> s.written >= 1 && s.read >= 1)
    && (!s.done ==> s.sendNonce == 0 && s.recvNonce == 0)
  }

  /** A successful handshake operation of either direction among the first n. */
  predicate Wrote(ops: seq<Op>, n: nat)
    requires n <= |ops|
  {
    exists i :: 0 <= i < n && ops[i].Write?
  }

  predicate ReadWhole(ops: seq<Op>, n: nat)
    requires n <= |ops|
  {
    exists i :: 0 <= i < n && ops[i].Read? && |ops[i].message| >= 32
  }

  lemma StepKeepsConsistent(s: Session, op: Op)
    requires Consistent(s)
    ensures Consistent(Step(s, op))
    ensures s.done ==> Step(s, op).done
    ensures Step(s, op).written >= 1 <==> s.written >= 1 || op.Write?
    ensures Step(s, op).read >= 1 <==> s.read >= 1 || (op.Read? && |op.message| >= KeyLen && !s.done)
  {
  }

  /** The handshake completes as soon as one message was written and one of at least 32 bytes was read, in
      either pattern and in any order, and it stays complete. */
  lemma {:induction false} CompletionIffWroteAndRead(pattern: Pattern, local: PublicKey, remote: PublicKey,
                                                     ops: seq<Op>, n: nat)
    requires n <= |ops|
    ensures var s := Run(Start(pattern, local, remote), ops, n);
      && Consistent(s)
      && (s.done <==> Wrote(ops, n) && ReadWhole(ops, n))
      && (s.written >= 1 <==> Wrote(ops, n))
      && (s.read >= 1 <==> ReadWhole(ops, n))
  {
    if n > 0 {
      CompletionIffWroteAndRead(pattern, local, remote, ops, n - 1);
      StepKeepsConsistent(Run(Start(pattern, local, remote), ops, n - 1), ops[n - 1]);
      assert Wrote(ops, n) <==> Wrote(ops, n - 1) || ops[n - 1].Write?;
      assert ReadWhole(ops, n) <==> ReadWhole(ops, n - 1) || (ops[n - 1].Read? && |ops[n - 1].message| >= KeyLen);
    }
  }

  /** After completion handshake messages are refused, and the remote key, and with it the key stream, is frozen. */
  lemma {:induction false} KeysFreezeOnCompletion(s: Session, ops: seq<Op>, n: nat)
    requires n <= |ops| && s.done
    ensures var t := Run(s, ops, n);
      t.done && t.localKey == s.localKey && t.remoteKey == s.remoteKey && t.written == s.written && t.read == s.read
  {
    if n > 0 {
      KeysFreezeOnCompletion(s, ops, n - 1);
    }
  }

  // ----- reading the operations -----

  /** The handshake completed within the first n operations. */
  predicate Completed(ops: seq<Op>, n: nat)
    requires n <= |ops|
  {
    Wrote(ops, n) && ReadWhole(ops, n)
  }

  /** The remote key after n operations: the one of the last handshake message read, or else the initial one. */
  function LearnedKey(remote: PublicKey, ops: seq<Op>, n: nat): PublicKey
    requires n <= |ops|
  {
    if n == 0 then remote
    else if ops[n - 1].Read? && |ops[n - 1].message| >= 32 && !Completed(ops, n - 1)
    then ops[n - 1].message[..32]
    else LearnedKey(remote, ops, n - 1)
  }

  /** Operation i encrypts a message: the handshake is complete and the text within the size cap. */
  predicate Sends(ops: seq<Op>, i: nat)
    requires i < |ops|
  {
    ops[i].Encrypt? && Completed(ops, i) && |ops[i].plaintext| <= 65535
  }

  /** How many messages the first n operations encrypted. */
  function SentBefore(ops: seq<Op>, n: nat): nat
    requires n <= |ops|
  {
    if n == 0 then 0 else SentBefore(ops, n - 1) + if Sends(ops, n - 1) then 1 else 0
  }

  /** Operation i is a ciphertext that carries a nonce, arriving after the handshake. */
  predicate Arrives(ops: seq<Op>, i: nat)
    requires i < |ops|
  {
    ops[i].Decrypt? && Completed(ops, i) && |ops[i].ciphertext| >= 8
  }

  /** Arrival j carries the largest nonce there is, which resets the filter. */
  predicate Resets(ops: seq<Op>, j: nat)
    requires j < |ops|
  {
    Arrives(ops, j) && NonceOf(ops[j].ciphertext) == MaxNonce
  }

  /** Arrival j, or one between it and n, reset the filter. */
  predicate ResetSince(ops: seq<Op>, j: nat, n: nat)
    requires n <= |ops|
  {
    exists k :: j <= k < n && Resets(ops, k)
  }

  /** Operation j is an arrival that no reset has made the filter forget. */
  predicate Remembered(ops: seq<Op>, j: nat, n: nat)
    requires j < n <= |ops|
  {
    Arrives(ops, j) && !ResetSince(ops, j, n)
  }

  /** Nonce x exceeds that of every arrival before n that no reset has made the filter forget. */
  predicate ExceedsRemembered(ops: seq<Op>, n: nat, x: nat)
    requires n <= |ops|
  {
    forall j :: 0 <= j < n ==> Remembered(ops, j, n) ==> NonceOf(ops[j].ciphertext) < x
  }

  /** Nonce x exceeds that of every earlier arrival. */
  predicate ExceedsAll(ops: seq<Op>, n: nat, x: nat)
    requires n <= |ops|
  {
    forall j :: 0 <= j < n && Arrives(ops, j) ==> NonceOf(ops[j].ciphertext) < x
  }

  lemma StaysCompleted(ops: seq<Op>, i: nat, n: nat)
    requires i <= n <= |ops| && Completed(ops, i)
    ensures Completed(ops, n)
  {
  }

  // ----- the session is a function of its operations -----

  /** The session holds what its operations say: keys, completion, both nonce counters. The receive counter is
      known by the nonces x it lets through. */
  ghost predicate HoldsHistory(local: PublicKey, remote: PublicKey, ops: seq<Op>, n: nat, t: Session)
    requires n <= |ops|
  {
    && t.localKey == local
    && t.remoteKey == LearnedKey(remote, ops, n)
    && (t.done <==> Completed(ops, n))
    && t.sendNonce == SentBefore(ops, n) % TwoTo64
    && forall x: nat :: t.recvNonce as int <= x <==> ExceedsRemembered(ops, n, x)
  }

  lemma RememberedLonger(ops: seq<Op>, j: nat, n: nat)
    requires j < n < |ops|
    ensures Remembered(ops, j, n + 1) <==> Remembered(ops, j, n) && !Resets(ops, n)
  {
    hide Arrives, Resets;
  }

  lemma RememberedLatest(ops: seq<Op>, n: nat)
    requires n < |ops|
    ensures Remembered(ops, n, n + 1) <==> Arrives(ops, n) && !Resets(ops, n)
  {
    hide Arrives, Resets;
  }

  lemma RememberedStep(ops: seq<Op>, n: nat, x: nat)
    requires n < |ops|
    ensures ExceedsRemembered(ops, n + 1, x) <==>
      || Resets(ops, n)
      || (ExceedsRemembered(ops, n, x) && (Arrives(ops, n) ==> NonceOf(ops[n].ciphertext) < x))
  {
    hide ResetSince, Resets, Completed, NonceOf;
    RememberedLatest(ops, n);
    if Resets(ops, n) || (ExceedsRemembered(ops, n, x) && (Arrives(ops, n) ==> NonceOf(ops[n].ciphertext) < x)) {
      forall j | 0 <= j <= n && Remembered(ops, j, n + 1) ensures NonceOf(ops[j].ciphertext) < x {
        if j < n {
          RememberedLonger(ops, j, n);
        }
      }
    }
    if !Resets(ops, n) && ExceedsRemembered(ops, n + 1, x) {
      forall j | 0 <= j < n && Remembered(ops, j, n) ensures NonceOf(ops[j].ciphertext) < x {
        RememberedLonger(ops, j, n);
      }
    }
  }

  /** One arrival changes at most the stored counter. */
  lemma DecryptStep(s: Session, c: Bytes)
    requires s.done
    ensures Step(s, Decrypt(c)) == s.(recvNonce := Step(s, Decrypt(c)).recvNonce)
    ensures Step(s, Decrypt(c)).recvNonce as int ==
      if |c| < NonceLen || NonceOf(c) < s.recvNonce then s.recvNonce as int
      else if NonceOf(c) == MaxNonce then 0 else NonceOf(c) + 1
  {
    if |c| >= NonceLen {
      NonceInRange(c);
    }
  }

  lemma NextNonce(k: nat)
    ensures (k % TwoTo64 + 1) % TwoTo64 == (k + 1) % TwoTo64
  {
  }

  /** The receive counter after one more operation lets through exactly the nonces the history does. */
  lemma FilterStep(ops: seq<Op>, n: nat, x: nat, t: Session)
    requires n < |ops| && (t.done <==> Completed(ops, n))
    requires t.recvNonce as int <= x <==> ExceedsRemembered(ops, n, x)
    ensures Step(t, ops[n]).recvNonce as int <= x <==> ExceedsRemembered(ops, n + 1, x)
  {
    RememberedStep(ops, n, x);
    if Arrives(ops, n) {
      DecryptStep(t, ops[n].ciphertext);
    }
  }

  lemma KeyStep(remote: PublicKey, ops: seq<Op>, n: nat, t: Session)
    requires n < |ops| && (t.done <==> Completed(ops, n))
    requires t.remoteKey == LearnedKey(remote, ops, n)
    ensures Step(t, ops[n]).localKey == t.localKey
    ensures Step(t, ops[n]).remoteKey == LearnedKey(remote, ops, n + 1)
  {
  }

  lemma SendStep(ops: seq<Op>, n: nat, t: Session)
    requires n < |ops| && (t.done <==> Completed(ops, n))
    requires t.sendNonce == SentBefore(ops, n) % TwoTo64
    ensures Step(t, ops[n]).sendNonce == SentBefore(ops, n + 1) % TwoTo64
  {
    NextNonce(SentBefore(ops, n));
  }

  /** After any operations whatever, in any order, a session's keys, completion and nonce counters are what its
      operations say. */
  lemma {:induction false} SessionHoldsHistory(pattern: Pattern, local: PublicKey, remote: PublicKey,
                                               ops: seq<Op>, n: nat, t: Session)
    requires n <= |ops| && t == Run(Start(pattern, local, remote), ops, n)
    ensures HoldsHistory(local, remote, ops, n, t)
  {
    CompletionIffWroteAndRead(pattern, local, remote, ops, n);
    if n > 0 {
      var before := Run(Start(pattern, local, remote), ops, n - 1);
      SessionHoldsHistory(pattern, local, remote, ops, n - 1, before);
      KeyStep(remote, ops, n - 1, before);
      SendStep(ops, n - 1, before);
      forall x: nat ensures t.recvNonce as int <= x <==> ExceedsRemembered(ops, n, x) {
        FilterStep(ops, n - 1, x, before);
      }
    }
  }

  // ----- the replay filter -----

  /** What a decrypt returns, from the history: refused before completion or without a nonce, rejected as a replay,
      or the text under the learned key. */
  function DecryptAnswer(local: PublicKey, remote: PublicKey, ops: seq<Op>, i: nat): Result<Bytes>
    requires i < |ops| && ops[i].Decrypt?
  {
    var c := ops[i].ciphertext;
    if !Arrives(ops, i) then Fail(InvalidArgument)
    else if !ExceedsRemembered(ops, i, NonceOf(c)) then Fail(PermissionDenied)
    else Ok(Stream(local, LearnedKey(remote, ops, i), NonceOf(c), c[NonceLen..]))
  }

  /** The replay filter, on every run of operations: a decrypt succeeds exactly when the handshake is complete, the
      ciphertext holds a nonce, and that nonce exceeds every nonce that arrived since the last arrival of
      nonce 2^64 - 1, whatever else the session did in between. */
  lemma ReplayFilterExact(pattern: Pattern, local: PublicKey, remote: PublicKey, ops: seq<Op>, i: nat, t: Session)
    requires i < |ops| && ops[i].Decrypt? && t == Run(Start(pattern, local, remote), ops, i)
    ensures Outcome(t, ops[i]) == DecryptAnswer(local, remote, ops, i)
  {
    SessionHoldsHistory(pattern, local, remote, ops, i, t);
  }

  /** The session, starting anew, decrypts arrival i. */
  predicate AcceptedAt(pattern: Pattern, local: PublicKey, remote: PublicKey, ops: seq<Op>, i: nat)
    requires i < |ops|
  {
    ops[i].Decrypt? && Outcome(Run(Start(pattern, local, remote), ops, i), ops[i]).Ok?
  }

  lemma AcceptedIff(pattern: Pattern, local: PublicKey, remote: PublicKey, ops: seq<Op>, i: nat)
    requires i < |ops|
    ensures AcceptedAt(pattern, local, remote, ops, i)
       <==> Arrives(ops, i) && ExceedsRemembered(ops, i, NonceOf(ops[i].ciphertext))
  {
    if ops[i].Decrypt? {
      ReplayFilterExact(pattern, local, remote, ops, i, Run(Start(pattern, local, remote), ops, i));
    }
  }

  lemma NothingForgotten(ops: seq<Op>, n: nat, x: nat)
    requires n <= |ops| && !ResetSince(ops, 0, n)
    ensures ExceedsRemembered(ops, n, x) <==> ExceedsAll(ops, n, x)
  {
    forall j | 0 <= j < n ensures !ResetSince(ops, j, n) {
    }
  }

  /** Every acceptance of the run is by the running maximum of all nonces that arrived. */
  ghost predicate RunningMaximum(pattern: Pattern, local: PublicKey, remote: PublicKey, ops: seq<Op>) {
    forall i :: 0 <= i < |ops| ==>
      (AcceptedAt(pattern, local, remote, ops, i) <==>
        Arrives(ops, i) && ExceedsAll(ops, i, NonceOf(ops[i].ciphertext)))
  }

  /** Nonce 2^64 - 1 is never followed by another arrival. */
  predicate NothingAfterReset(ops: seq<Op>) {
    forall j, i :: 0 <= j < i < |ops| && Resets(ops, j) ==> !Arrives(ops, i)
  }

  /** The filter is the running maximum on the whole run exactly when nonce 2^64 - 1 is never followed by another
      arrival. */
  lemma RunningMaximumIff(pattern: Pattern, local: PublicKey, remote: PublicKey, ops: seq<Op>)
    ensures RunningMaximum(pattern, local, remote, ops) <==> NothingAfterReset(ops)
  {
    if NothingAfterReset(ops) {
      forall i | 0 <= i < |ops|
        ensures AcceptedAt(pattern, local, remote, ops, i)
           <==> Arrives(ops, i) && ExceedsAll(ops, i, NonceOf(ops[i].ciphertext))
      {
        AcceptedIff(pattern, local, remote, ops, i);
        if Arrives(ops, i) {
          NothingForgotten(ops, i, NonceOf(ops[i].ciphertext));
        }
      }
    } else {
      var j, i :| 0 <= j < i < |ops| && Resets(ops, j) && Arrives(ops, i);
      var next := FirstArrivalAfter(ops, j, i);
      ResetIsForgetful(pattern, local, remote, ops, j, next);
      NonceInRange(ops[next].ciphertext);
      assert !ExceedsAll(ops, next, NonceOf(ops[next].ciphertext));
    }
  }

  lemma {:induction false} FirstArrivalAfter(ops: seq<Op>, j: nat, i: nat) returns (next: nat)
    requires j < i < |ops| && Arrives(ops, i)
    ensures j < next <= i && Arrives(ops, next)
    ensures forall k :: j < k < next ==> !Arrives(ops, k)
    decreases i
  {
    if k :| j < k < i && Arrives(ops, k) {
      next := FirstArrivalAfter(ops, j, k);
    } else {
      next := i;
    }
  }

  /** Right after nonce 2^64 - 1 any nonce is accepted, however often it was seen. */
  lemma ResetIsForgetful(pattern: Pattern, local: PublicKey, remote: PublicKey, ops: seq<Op>, j: nat, next: nat)
    requires j < next < |ops| && Resets(ops, j) && Arrives(ops, next)
    requires forall k :: j < k < next ==> !Arrives(ops, k)
    ensures AcceptedAt(pattern, local, remote, ops, next)
  {
    AcceptedIff(pattern, local, remote, ops, next);
    forall k | 0 <= k < next && Arrives(ops, k) ensures ResetSince(ops, k, next) {
      assert k <= j && Resets(ops, j);
    }
  }

  /** A duplicate is always rejected, unless nonce 2^64 - 1 arrived since the original. */
  lemma DuplicatesAreRejected(pattern: Pattern, local: PublicKey, remote: PublicKey, ops: seq<Op>, j: nat, i: nat)
    requires j < i < |ops| && Arrives(ops, j) && ops[i] == ops[j]
    requires !ResetSince(ops, j, i)
    ensures !AcceptedAt(pattern, local, remote, ops, i)
  {
    AcceptedIff(pattern, local, remote, ops, i);
  }

  /** The wrap-around is real: nonce 2^64 - 1 is accepted every time it arrives. */
  lemma MaxNonceReplays(pattern: Pattern, local: PublicKey, remote: PublicKey, ops: seq<Op>, i: nat)
    requires i < |ops| && Resets(ops, i)
    ensures AcceptedAt(pattern, local, remote, ops, i)
  {
    AcceptedIff(pattern, local, remote, ops, i);
    forall j | 0 <= j < i && Arrives(ops, j) && !ResetSince(ops, j, i)
      ensures NonceOf(ops[j].ciphertext) < MaxNonce
    {
      NonceInRange(ops[j].ciphertext);
      assert !Resets(ops, j);
    }
  }

  /** A handshake and two ciphertexts, the first with the largest nonce. */
  lemma AcceptedAfterReset(pattern: Pattern, local: PublicKey, remote: PublicKey, ops: seq<Op>)
    requires |ops| == 4 && ops[0].Write? && ops[1].Read? && |ops[1].message| >= KeyLen
    requires forall i :: 2 <= i < 4 ==> ops[i].Decrypt? && |ops[i].ciphertext| >= NonceLen
    requires NonceOf(ops[2].ciphertext) == MaxNonce
    ensures Resets(ops, 2) && Arrives(ops, 3) && !NothingAfterReset(ops)
    ensures AcceptedAt(pattern, local, remote, ops, 2) && AcceptedAt(pattern, local, remote, ops, 3)
    ensures !RunningMaximum(pattern, local, remote, ops)
  {
    hide NonceOf, AcceptedAt, RunningMaximum;
    assert Completed(ops, 2) && Completed(ops, 3);
    MaxNonceReplays(pattern, local, remote, ops, 2);
    ResetIsForgetful(pattern, local, remote, ops, 2, 3);
    RunningMaximumIff(pattern, local, remote, ops);
  }

  lemma NonceBytesReadBack(nonce: uint64)
    ensures |NonceBytes(nonce)| == NonceLen && NonceOf(NonceBytes(nonce)) == nonce
  {
    NonceRoundTrip(nonce, []);
    assert NonceBytes(nonce) + [] == NonceBytes(nonce);
  }

  /** Such runs exist: a session that completes the handshake and is sent nonce 2^64 - 1 and then nonce 0 accepts
      both, though 0 does not exceed what arrived. */
  lemma SmallNonceAfterReset(pattern: Pattern, local: PublicKey, remote: PublicKey, peerKey: PublicKey)
    ensures var ops := [Write([]), Read(peerKey), Decrypt(NonceBytes(MaxNonce)), Decrypt(NonceBytes(0))];
      && Resets(ops, 2) && Arrives(ops, 3) && !NothingAfterReset(ops)
      && AcceptedAt(pattern, local, remote, ops, 2) && AcceptedAt(pattern, local, remote, ops, 3)
      && !RunningMaximum(pattern, local, remote, ops)
  {
    hide *;
    NonceBytesReadBack(MaxNonce);
    NonceBytesReadBack(0);
    var ops := [Write([]), Read(peerKey), Decrypt(NonceBytes(MaxNonce)), Decrypt(NonceBytes(0))];
    AcceptedAfterReset(pattern, local, remote, ops);
  }

  // ----- one sender, one receiver -----

  /** What an encrypt returns, from the history: the text under the learned key, numbered by the messages sent
      before it, or a refusal. */
  function EncryptAnswer(local: PublicKey, remote: PublicKey, ops: seq<Op>, i: nat): Result<Bytes>
    requires i < |ops| && ops[i].Encrypt?
  {
    if !Sends(ops, i) then Fail(InvalidArgument)
    else Ok(Ciphertext(local, LearnedKey(remote, ops, i), SentBefore(ops, i) % TwoTo64, ops[i].plaintext))
  }

  /** On every run of operations a session numbers the messages it sends 0, 1, 2, ... modulo 2^64, whatever it
      receives in between. */
  lemma SenderNumbersMessages(pattern: Pattern, local: PublicKey, remote: PublicKey, ops: seq<Op>, i: nat, t: Session)
    requires i < |ops| && ops[i].Encrypt? && t == Run(Start(pattern, local, remote), ops, i)
    ensures Outcome(t, ops[i]) == EncryptAnswer(local, remote, ops, i)
  {
    SessionHoldsHistory(pattern, local, remote, ops, i, t);
  }

  lemma {:induction false} LaterSendsAreNumberedHigher(ops: seq<Op>, i: nat, j: nat)
    requires i < j < |ops| && Sends(ops, i)
    ensures SentBefore(ops, i) < SentBefore(ops, j)
  {
    if i < j - 1 {
      LaterSendsAreNumberedHigher(ops, i, j - 1);
    }
  }

  lemma {:induction false} SentBeforeIsBounded(ops: seq<Op>, i: nat, n: nat)
    requires i <= n <= |ops|
    ensures SentBefore(ops, i) <= SentBefore(ops, n)
  {
    if i < n {
      SentBeforeIsBounded(ops, i, n - 1);
    }
  }

  /** One side of a conversation: how the session was made, and everything it was asked to do. */
  datatype Side = Side(pattern: Pattern, local: PublicKey, remote: PublicKey, ops: seq<Op>) {
    /** What operation i returned. */
    function Returned(i: nat): Result<Bytes>
      requires i < |ops|
    {
      Outcome(Run(Start(pattern, local, remote), ops, i), ops[i])
    }

    /** The side sends at most as many messages as there are nonces. */
    predicate NoncesLast() {
      SentBefore(ops, |ops|) <= TwoTo64
    }
  }

  lemma SmallModulus(k: nat)
    requires k < TwoTo64
    ensures k % TwoTo64 == k
  {
  }

  /** A side's i-th operation, when it sends, returns a ciphertext numbered by the messages sent before it. */
  lemma SideSends(a: Side, i: nat, peerKey: PublicKey)
    requires i < |a.ops| && Sends(a.ops, i) && a.NoncesLast() && LearnedKey(a.remote, a.ops, i) == peerKey
    ensures SentBefore(a.ops, i) < TwoTo64
    ensures a.Returned(i) == Ok(Ciphertext(a.local, peerKey, SentBefore(a.ops, i), a.ops[i].plaintext))
  {
    hide Run, Outcome, LearnedKey, Completed, Ciphertext;
    assert SentBefore(a.ops, i) < TwoTo64 by {
      SentBeforeIsBounded(a.ops, i + 1, |a.ops|);
      assert SentBefore(a.ops, i + 1) == SentBefore(a.ops, i) + 1;
    }
    SmallModulus(SentBefore(a.ops, i));
    SenderNumbersMessages(a.pattern, a.local, a.remote, a.ops, i, Run(Start(a.pattern, a.local, a.remote), a.ops, i));
  }

  /** The ciphertext of a message carries its number. */
  lemma CiphertextCarriesNumber(s: Side, i: nat)
    requires i < |s.ops| && Sends(s.ops, i) && s.NoncesLast()
    ensures s.Returned(i).Ok? && |s.Returned(i).value| >= NonceLen
    ensures NonceOf(s.Returned(i).value) == SentBefore(s.ops, i)
  {
    var key := LearnedKey(s.remote, s.ops, i);
    SideSends(s, i, key);
    NonceRoundTrip(SentBefore(s.ops, i), Stream(s.local, key, SentBefore(s.ops, i), s.ops[i].plaintext));
  }

  /** Everything that arrives at the receiver is some message of the sender, in the order they were sent;
      picks[j] is the sender's operation that made arrival j. */
  ghost predicate ArrivesInOrder(sender: Side, receiver: Side, picks: seq<nat>) {
    && |picks| == |receiver.ops|
    && (forall j :: 0 <= j < |picks| && Arrives(receiver.ops, j) ==>
          && picks[j] < |sender.ops| && Sends(sender.ops, picks[j])
          && sender.Returned(picks[j]) == Ok(receiver.ops[j].ciphertext))
    && (forall j, k :: 0 <= j < k < |picks| && Arrives(receiver.ops, j) && Arrives(receiver.ops, k) ==>
          picks[j] < picks[k])
  }

  /** Any in-order selection of one sender's messages is accepted in full, whatever else both sides do. */
  lemma InOrderSelectionAccepted(sender: Side, receiver: Side, picks: seq<nat>, i: nat)
    requires sender.NoncesLast() && ArrivesInOrder(sender, receiver, picks)
    requires i < |receiver.ops| && Arrives(receiver.ops, i)
    ensures AcceptedAt(receiver.pattern, receiver.local, receiver.remote, receiver.ops, i)
  {
    AcceptedIff(receiver.pattern, receiver.local, receiver.remote, receiver.ops, i);
    CiphertextCarriesNumber(sender, picks[i]);
    forall j | 0 <= j < i && Arrives(receiver.ops, j)
      ensures NonceOf(receiver.ops[j].ciphertext) < NonceOf(receiver.ops[i].ciphertext)
    {
      CiphertextCarriesNumber(sender, picks[j]);
      LaterSendsAreNumberedHigher(sender.ops, picks[j], picks[i]);
    }
  }

  // ----- on the wire -----

  /** The byte an operation at nonce n combines into position j: local key then remote key, over and over, combined
      with the low byte of n + j. */
  predicate Combined(local: PublicKey, remote: PublicKey, n: nat, given: Bytes, returned: Bytes) {
    && |local + remote| == 64 && |returned| == |given|
    && forall j :: 0 <= j < |given| ==>
         returned[j] == Xor(given[j], Xor((local + remote)[j % 64], (n + j) % 256))
  }

  lemma StreamCombines(local: PublicKey, remote: PublicKey, n: nat, given: Bytes)
    ensures Combined(local, remote, n, given, Stream(local, remote, n, given))
  {
    hide Xor;
  }

  lemma NonceOnBytes(c: Bytes)
    requires |c| >= 8
    ensures NonceOf(c) == U64(c, 0)
  {
    hide FromLE, U64;
    EightBytes(c, 0);
  }

  /** What the n-th message of a run sends, byte for byte: its number modulo 2^64 in eight little-endian bytes, then
      every text byte combined with the key byte in turn and with the low byte of number plus position. */
  lemma EncryptedBytes(pattern: Pattern, local: PublicKey, remote: PublicKey, ops: seq<Op>, i: nat, t: Session)
    requires i < |ops| && ops[i].Encrypt? && t == Run(Start(pattern, local, remote), ops, i)
    ensures var r, text := Outcome(t, ops[i]), ops[i].plaintext;
      var number := SentBefore(ops, i) % 0x1_0000_0000_0000_0000;
      if Completed(ops, i) && |text| <= 65535 then
        && r.Ok? && |r.value| == 8 + |text|
        && U64(r.value, 0) == number
        && Combined(local, LearnedKey(remote, ops, i), number, text, r.value[8..])
      else r == Fail(InvalidArgument)
  {
    hide Run, Outcome, LearnedKey, Completed, SentBefore, Stream, U64, Combined;
    SenderNumbersMessages(pattern, local, remote, ops, i, t);
    var key, number, text := LearnedKey(remote, ops, i), SentBefore(ops, i) % TwoTo64, ops[i].plaintext;
    var body := Stream(local, key, number, text);
    NonceRoundTrip(number, body);
    NonceOnBytes(NonceBytes(number) + body);
    StreamCombines(local, key, number, text);
    assert (NonceBytes(number) + body)[8..] == body;
  }

  /** What a decrypt returns, byte for byte: refused without a completed handshake or eight bytes of nonce, rejected
      when the nonce does not exceed all that are remembered, else every byte combined the same way. */
  lemma DecryptedBytes(pattern: Pattern, local: PublicKey, remote: PublicKey, ops: seq<Op>, i: nat, t: Session)
    requires i < |ops| && ops[i].Decrypt? && t == Run(Start(pattern, local, remote), ops, i)
    ensures var r, c := Outcome(t, ops[i]), ops[i].ciphertext;
      if !Completed(ops, i) || |c| < 8 then r == Fail(InvalidArgument)
      else if !ExceedsRemembered(ops, i, U64(c, 0)) then r == Fail(PermissionDenied)
      else r.Ok? && Combined(local, LearnedKey(remote, ops, i), U64(c, 0), c[8..], r.value)
  {
    hide Run, Outcome, LearnedKey, Completed, ExceedsRemembered, Stream, U64, Combined;
    ReplayFilterExact(pattern, local, remote, ops, i, t);
    var c := ops[i].ciphertext;
    if |c| >= 8 {
      NonceOnBytes(c);
      StreamCombines(local, LearnedKey(remote, ops, i), U64(c, 0), c[8..]);
    }
  }

  /** What the handshake operations return: nothing but an error once the handshake is complete; before, a write
      gives the local key and the payload, and a read of at least 32 bytes gives what follows the peer's key. */
  lemma HandshakeBytes(pattern: Pattern, local: PublicKey, remote: PublicKey, ops: seq<Op>, i: nat, t: Session)
    requires i < |ops| && t == Run(Start(pattern, local, remote), ops, i)
    ensures ops[i].Write? ==>
      Outcome(t, ops[i]) == if Completed(ops, i) then Fail(InvalidArgument) else Ok(local + ops[i].payload)
    ensures ops[i].Read? ==>
      Outcome(t, ops[i]) == if Completed(ops, i) || |ops[i].message| < 32 then Fail(InvalidArgument)
                            else Ok(ops[i].message[32..])
  {
    hide Run;
    SessionHoldsHistory(pattern, local, remote, ops, i, t);
  }

  // ----- two peers -----

  /** The honest handshake: A writes, B reads and writes, A reads. */
  function HandshakeA(pattern: Pattern, pa: PublicKey, pb: PublicKey, known: PublicKey,
                      early: Bytes, lateB: Bytes): Session {
    Step(Step(Start(pattern, pa, known), Write(early)), Read(pb + lateB))
  }

  function HandshakeB(pattern: Pattern, pa: PublicKey, pb: PublicKey, known: PublicKey,
                      early: Bytes, lateB: Bytes): Session {
    Step(Step(Start(pattern, pb, known), Read(pa + early)), Write(lateB))
  }

  /** The messages exchanged are the ones each side wrote; afterwards both are complete, hold each other's key
      and have used no nonce. */
  lemma HonestHandshakeCompletes(pattern: Pattern, pa: PublicKey, pb: PublicKey, knownA: PublicKey, knownB: PublicKey,
                                 early: Bytes, lateB: Bytes)
    ensures Outcome(Start(pattern, pa, knownA), Write(early)) == Ok(pa + early)
    ensures Outcome(Step(Start(pattern, pb, knownB), Read(pa + early)), Write(lateB)) == Ok(pb + lateB)
    ensures HandshakeA(pattern, pa, pb, knownA, early, lateB) == Session(pa, pb, true, true, 1, 1, 0, 0)
    ensures HandshakeB(pattern, pa, pb, knownB, early, lateB) == Session(pb, pa, true, true, 1, 1, 0, 0)
  {
    assert (pb + lateB)[..KeyLen] == pb && (pa + early)[..KeyLen] == pa;
  }

  /** What a peer with the mirrored key pair makes of a ciphertext. */
  function Mirrored(pa: PublicKey, pb: PublicKey, text: Bytes): (r: Bytes)
    ensures |r| == |text|
    ensures forall i :: 0 <= i < |text| ==> r[i] == Xor(text[i], Xor(pa[i % KeyLen], pb[i % KeyLen]))
  {
    seq(|text|, i requires 0 <= i < |text| => Xor(text[i], Xor(pa[i % KeyLen], pb[i % KeyLen])))
  }

  lemma XorSymmetric(a: Byte, b: Byte)
    ensures Xor(a, b) == Xor(b, a)
  {
    XorBitsSymmetric(a, b, 8);
  }

  lemma {:induction false} XorBitsSymmetric(a: nat, b: nat, w: nat)
    ensures XorBits(a, b, w) == XorBits(b, a, w)
  {
    if w > 0 {
      XorBitsSymmetric(a / 2, b / 2, w - 1);
    }
  }

  /** The two key orders, at one position. */
  lemma MirroredKeys(pa: PublicKey, pb: PublicKey, i: nat)
    ensures Xor((pa + pb)[i % (KeyLen + KeyLen)], (pb + pa)[i % (KeyLen + KeyLen)])
         == Xor(pa[i % KeyLen], pb[i % KeyLen])
  {
    var j := i % (KeyLen + KeyLen);
    assert i % KeyLen == if j < KeyLen then j else j - KeyLen;
    XorSymmetric(pa[i % KeyLen], pb[i % KeyLen]);
  }

  /** Each side builds its key as local then remote, so the two streams differ: what comes out at the other side
      is the plaintext combined with both public keys. */
  lemma StreamsAreMirrored(pa: PublicKey, pb: PublicKey, nonce: nat, text: Bytes)
    ensures Stream(pb, pa, nonce, Stream(pa, pb, nonce, text)) == Mirrored(pa, pb, text)
  {
    var c := Stream(pa, pb, nonce, text);
    forall i | 0 <= i < |text| ensures Stream(pb, pa, nonce, c)[i] == Mirrored(pa, pb, text)[i] {
      XorLaws(text[i], (pa + pb)[i % (KeyLen + KeyLen)], (pb + pa)[i % (KeyLen + KeyLen)], (nonce + i) % 256);
      MirroredKeys(pa, pb, i);
    }
  }

  /** The public keys agree on their first n bytes. */
  predicate Agree(pa: PublicKey, pb: PublicKey, n: nat) {
    forall i :: 0 <= i < n && i < KeyLen ==> pa[i] == pb[i]
  }

  /** The mirrored text is the text exactly when the keys agree as far as it reaches. */
  lemma MirroredIsIdentityIff(pa: PublicKey, pb: PublicKey, text: Bytes)
    ensures Mirrored(pa, pb, text) == text <==> Agree(pa, pb, |text|)
  {
    forall i | 0 <= i < |text|
      ensures Mirrored(pa, pb, text)[i] == text[i] <==> pa[i % KeyLen] == pb[i % KeyLen]
    {
      XorLaws(text[i], pa[i % KeyLen], pb[i % KeyLen], 0);
    }
    if Mirrored(pa, pb, text) == text {
      forall i | 0 <= i < |text| && i < KeyLen ensures pa[i] == pb[i] {
        assert i % KeyLen == i;
        assert Mirrored(pa, pb, text)[i] == text[i];
      }
    }
  }

  /** Cross-peer decryption, characterised: after the honest handshake, a message A encrypts is accepted by B if
      B has not yet seen its nonce or a later one, B obtains the plaintext combined with both public keys, and
      that is the plaintext exactly when the two keys agree on its first min(length, 32) bytes. */
  lemma CrossPeerDecryption(pa: PublicKey, pb: PublicKey, a: Session, b: Session, plaintext: Bytes)
    requires a.done && a.localKey == pa && a.remoteKey == pb
    requires b.done && b.localKey == pb && b.remoteKey == pa
    requires |plaintext| <= MaxMessage && b.recvNonce <= a.sendNonce
    ensures Outcome(a, Encrypt(plaintext)).Ok?
    ensures var received := Outcome(b, Decrypt(Outcome(a, Encrypt(plaintext)).value));
      && received == Ok(Mirrored(pa, pb, plaintext))
      && (received == Ok(plaintext) <==> Agree(pa, pb, |plaintext|))
  {
    hide Stream, NonceOf, Mirrored, Agree, Ciphertext;
    MirroredPeers(pa, pb, a.sendNonce, plaintext, Ciphertext(pa, pb, a.sendNonce, plaintext));
  }

  /** A completed handshake leaves the remote key learned by then. */
  lemma {:induction false} LearnedKeyIsFrozen(remote: PublicKey, ops: seq<Op>, i: nat, n: nat)
    requires i <= n <= |ops| && Completed(ops, i)
    ensures LearnedKey(remote, ops, n) == LearnedKey(remote, ops, i)
  {
    if i < n {
      LearnedKeyIsFrozen(remote, ops, i, n - 1);
      StaysCompleted(ops, i, n - 1);
    }
  }

  /** The two sides opened with the honest handshake: a wrote and b read what a returned, then b wrote and a read
      what b returned. */
  predicate ShookHands(a: Side, b: Side) {
    && |a.ops| >= 2 && |b.ops| >= 2
    && a.ops[0].Write? && b.ops[0].Read? && a.Returned(0) == Ok(b.ops[0].message)
    && b.ops[1].Write? && a.ops[1].Read? && b.Returned(1) == Ok(a.ops[1].message)
  }

  /** The messages that went over are each side's key and payload. */
  lemma HandshakeMessages(a: Side, b: Side)
    requires ShookHands(a, b)
    ensures b.ops[0] == Read(a.local + a.ops[0].payload) && a.ops[1] == Read(b.local + b.ops[1].payload)
  {
    var early, late := a.ops[0].payload, b.ops[1].payload;
    HonestHandshakeCompletes(a.pattern, a.local, b.local, a.remote, b.remote, early, late);
    var start := Start(b.pattern, b.local, b.remote);
    assert Run(start, b.ops, 0) == start;
    assert Run(start, b.ops, 1) == Step(start, b.ops[0]);
    assert Run(Start(a.pattern, a.local, a.remote), a.ops, 0) == Start(a.pattern, a.local, a.remote);
  }

  lemma HonestKeys(a: Side, b: Side, i: nat, j: nat)
    requires ShookHands(a, b) && 2 <= i <= |a.ops| && 2 <= j <= |b.ops|
    ensures Completed(a.ops, i) && LearnedKey(a.remote, a.ops, i) == b.local
    ensures Completed(b.ops, j) && LearnedKey(b.remote, b.ops, j) == a.local
  {
    HandshakeMessages(a, b);
    hide Run;
    assert Wrote(a.ops, 2) && !Wrote(b.ops, 1);
    assert a.ops[1].Read? && |a.ops[1].message| >= KeyLen && b.ops[0].Read? && |b.ops[0].message| >= KeyLen;
    assert b.ops[1].Write?;
    assert !ReadWhole(a.ops, 1);
    StaysCompleted(a.ops, 2, i);
    StaysCompleted(b.ops, 2, j);
    assert (b.local + b.ops[1].payload)[..KeyLen] == b.local && (a.local + a.ops[0].payload)[..KeyLen] == a.local;
    LearnedKeyIsFrozen(a.remote, a.ops, 2, i);
    LearnedKeyIsFrozen(b.remote, b.ops, 2, j);
    assert LearnedKey(a.remote, a.ops, 2) == b.local;
    assert LearnedKey(b.remote, b.ops, 1) == a.local;
  }

  /** What side b makes of message i of side a when it arrives as operation j: accepted exactly when its number
      exceeds all that b remembers, and then the plaintext combined with both public keys. */
  predicate Exchanged(a: Side, b: Side, i: nat, j: nat)
    requires i < |a.ops| && j < |b.ops| && a.ops[i].Encrypt?
  {
    var text := a.ops[i].plaintext;
    && b.Returned(j) == (if ExceedsRemembered(b.ops, j, SentBefore(a.ops, i)) then Ok(Mirrored(a.local, b.local, text))
                         else Fail(PermissionDenied))
    && (b.Returned(j) == Ok(text) <==>
          ExceedsRemembered(b.ops, j, SentBefore(a.ops, i)) && Agree(a.local, b.local, |text|))
  }

  /** Message i of side a arrives at side b as its operation j. */
  predicate Reaches(a: Side, b: Side, i: nat, j: nat) {
    && i < |a.ops| && j < |b.ops| && Sends(a.ops, i) && b.ops[j].Decrypt?
    && a.Returned(i) == Ok(b.ops[j].ciphertext)
  }

  /** Mirrored keys on one ciphertext. */
  lemma MirroredPeers(pa: PublicKey, pb: PublicKey, nonce: uint64, text: Bytes, c: Bytes)
    requires c == Ciphertext(pa, pb, nonce, text)
    ensures |c| >= NonceLen && NonceOf(c) == nonce
    ensures Stream(pb, pa, nonce, c[NonceLen..]) == Mirrored(pa, pb, text)
    ensures Mirrored(pa, pb, text) == text <==> Agree(pa, pb, |text|)
  {
    NonceRoundTrip(nonce, Stream(pa, pb, nonce, text));
    assert c[NonceLen..] == Stream(pa, pb, nonce, text);
    StreamsAreMirrored(pa, pb, nonce, text);
    MirroredIsIdentityIff(pa, pb, text);
  }

  lemma SideDecrypts(b: Side, j: nat)
    requires j < |b.ops| && b.ops[j].Decrypt?
    ensures b.Returned(j) == DecryptAnswer(b.local, b.remote, b.ops, j)
  {
    ReplayFilterExact(b.pattern, b.local, b.remote, b.ops, j, Run(Start(b.pattern, b.local, b.remote), b.ops, j));
  }

  lemma PeersExchange(a: Side, b: Side, i: nat, j: nat)
    requires a.NoncesLast() && Reaches(a, b, i, j) && Completed(b.ops, j)
    requires LearnedKey(a.remote, a.ops, i) == b.local && LearnedKey(b.remote, b.ops, j) == a.local
    ensures Exchanged(a, b, i, j)
  {
    SideSends(a, i, b.local);
    SideDecrypts(b, j);
    MirroredPeers(a.local, b.local, SentBefore(a.ops, i), a.ops[i].plaintext, b.ops[j].ciphertext);
  }

  /** After an honest handshake, however the two sides go on and in both directions: a message one side sends is
      accepted by the other exactly when its number exceeds all that side remembers; what comes out is the
      plaintext combined with both public keys, and that is the plaintext exactly when the keys agree as far as
      it reaches. */
  lemma HonestPeersExchange(a: Side, b: Side, i: nat, j: nat)
    requires ShookHands(a, b)
    requires a.NoncesLast() && b.NoncesLast() && 2 <= i < |a.ops| && 2 <= j < |b.ops|
    ensures Reaches(a, b, i, j) ==> Exchanged(a, b, i, j)
    ensures Reaches(b, a, j, i) ==> Exchanged(b, a, j, i)
  {
    HonestKeys(a, b, i, j);
    if Reaches(a, b, i, j) {
      PeersExchange(a, b, i, j);
    }
    if Reaches(b, a, j, i) {
      PeersExchange(b, a, j, i);
    }
  }
}
