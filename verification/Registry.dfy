/** The on-chain registry: a mapping, an event log, and one transaction. */
module Registry {
  import opened Common
  import opened Verifier

  /** An account address. */
  type Address = a: bytes | |a| == 20 witness seq(20, i => 0)

  datatype Event = CommitmentVerified(stateCommitment: Bytes32, submitter: Address)

  datatype Revert = InvalidCommitment | InvalidStorageMerkleRoot | MockVerificationFailed

  datatype Call = Call(sender: Address, data: CallData)

  datatype State = State(verifiedState: map<Bytes32, bool>, log: seq<Event>) {
    /** The public getter: a key never written reads as false. */
    predicate Verified(c: Bytes32) {
      c in verifiedState && verifiedState[c]
    }
  }

  const DEPLOYED := State(map[], [])

  /** The contract's placeholder for a proof check. */
  predicate VerifyMockProof(data: CallData) {
    true
  }

  /** One transaction: the new state, and why it was rolled back if it was. */
  function Submit(s: State, call: Call): (State, Result<(), Revert>) {
    var c := call.data.stateCommitment;
    if AllZero(c) then (s, Err(Revert.InvalidCommitment))
    else if AllZero(call.data.storageMerkleRoot) then (s, Err(InvalidStorageMerkleRoot))
    else if !VerifyMockProof(call.data) then (s, Err(MockVerificationFailed))
    else (State(s.verifiedState[c := true], s.log + [CommitmentVerified(c, call.sender)]), Ok(()))
  }

  class PqspVerifier {
    var verifiedState: map<Bytes32, bool>
    var log: seq<Event>

    function Current(): State
      reads this
    {
      State(verifiedState, log)
    }

    constructor ()
      ensures Current() == DEPLOYED
    {
      verifiedState, log := map[], [];
    }

    /** `submitCommitment`: checks first, then the mapping and the log. */
    method SubmitCommitment(sender: Address, data: CallData) returns (r: Result<(), Revert>)
      modifies this
      ensures (Current(), r) == Submit(old(Current()), Call(sender, data))
      ensures r.Err? ==> Current() == old(Current())
      ensures r.Ok? ==> Current().Verified(data.stateCommitment)
    {
      if AllZero(data.stateCommitment) {
        return Err(Revert.InvalidCommitment);
      }
      if AllZero(data.storageMerkleRoot) {
        return Err(InvalidStorageMerkleRoot);
      }
      if !VerifyMockProof(data) {
        return Err(MockVerificationFailed);
      }
      verifiedState := verifiedState[data.stateCommitment := true];
      log := log + [CommitmentVerified(data.stateCommitment, sender)];
      return Ok(());
    }
  }

  // -------------------------------------------------------------------- runs

  function Run(s: State, calls: seq<Call>): State
    decreases |calls|
  {
    if calls == [] then s else Run(Submit(s, calls[0]).0, calls[1..])
  }

  /** Neither of the contract's two checks stops the call. */
  predicate Accepted(call: Call) {
    !AllZero(call.data.stateCommitment) && !AllZero(call.data.storageMerkleRoot)
  }

  function Events(calls: seq<Call>): seq<Event> {
    if calls == [] then []
    else
      (if Accepted(calls[0]) then [CommitmentVerified(calls[0].data.stateCommitment, calls[0].sender)] else [])
      + Events(calls[1..])
  }

  /** Some accepted call was about `c`. */
  ghost predicate Submitted(calls: seq<Call>, c: Bytes32) {
    exists i | 0 <= i < |calls| :: Accepted(calls[i]) && calls[i].data.stateCommitment == c
  }

  ghost predicate Logged(log: seq<Event>, c: Bytes32) {
    exists i | 0 <= i < |log| :: log[i].stateCommitment == c
  }

  /** The mapping and the log say the same, and never speak of zero. */
  ghost predicate Consistent(s: State) {
    && (forall c: Bytes32 :: s.Verified(c) <==> Logged(s.log, c))
    && (forall c: Bytes32 :: s.Verified(c) ==> !AllZero(c))
  }

  // -------------------------------------------------------------------- laws

  /** A transaction goes through exactly when it is accepted, and leaves no trace
      otherwise. The third revert never happens. */
  lemma SubmitExactly(s: State, call: Call)
    ensures Submit(s, call).1.Ok? <==> Accepted(call)
    ensures Submit(s, call).1.Err? ==> Submit(s, call).0 == s
    ensures Submit(s, call).1 != Err(MockVerificationFailed)
    ensures Submit(s, call).1 == Err(Revert.InvalidCommitment) <==> AllZero(call.data.stateCommitment)
    ensures forall c: Bytes32 ::
              Submit(s, call).0.Verified(c) <==>
              s.Verified(c) || (Accepted(call) && c == call.data.stateCommitment)
  {
  }

  /** Exactly what is verified after any sequence of calls. */
  lemma {:induction false} RunVerifies(s: State, calls: seq<Call>, c: Bytes32)
    ensures Run(s, calls).Verified(c) <==> s.Verified(c) || Submitted(calls, c)
    decreases |calls|
  {
    if calls == [] {
    } else {
      SubmitExactly(s, calls[0]);
      RunVerifies(Submit(s, calls[0]).0, calls[1..], c);
      SubmittedSplits(calls, c);
    }
  }

  /** The log grows by one event an accepted call, in call order. */
  lemma {:induction false} RunLogs(s: State, calls: seq<Call>)
    ensures Run(s, calls).log == s.log + Events(calls)
    decreases |calls|
  {
    if calls == [] {
    } else {
      SubmitExactly(s, calls[0]);
      RunLogs(Submit(s, calls[0]).0, calls[1..]);
    }
  }

  lemma SubmittedSplits(calls: seq<Call>, c: Bytes32)
    requires calls != []
    ensures Submitted(calls, c) <==>
            (Accepted(calls[0]) && c == calls[0].data.stateCommitment) || Submitted(calls[1..], c)
  {
    if Submitted(calls, c) {
      var i :| 0 <= i < |calls| && Accepted(calls[i]) && calls[i].data.stateCommitment == c;
      if i > 0 {
        assert calls[i] == calls[1..][i - 1];
      }
    }
    if Submitted(calls[1..], c) {
      var i :| 0 <= i < |calls[1..]| && Accepted(calls[1..][i]) && calls[1..][i].data.stateCommitment == c;
      assert calls[i + 1] == calls[1..][i];
    }
  }

  lemma SubmitKeepsConsistent(s: State, call: Call)
    requires Consistent(s)
    ensures Consistent(Submit(s, call).0)
  {
    SubmitExactly(s, call);
    var next := Submit(s, call).0;
    if Accepted(call) {
      var event := CommitmentVerified(call.data.stateCommitment, call.sender);
      forall c: Bytes32
        ensures Logged(next.log, c) <==> Logged(s.log, c) || c == call.data.stateCommitment
      {
        LoggedSplits(s.log, event, c);
      }
    }
  }

  lemma LoggedSplits(log: seq<Event>, event: Event, c: Bytes32)
    ensures Logged(log + [event], c) <==> Logged(log, c) || c == event.stateCommitment
  {
    var all := log + [event];
    assert all[|log|] == event;
    if Logged(log, c) {
      var i :| 0 <= i < |log| && log[i].stateCommitment == c;
      assert all[i] == log[i];
    }
  }

  /** From deployment on, after any calls by any senders. */
  lemma {:induction false} RunKeepsConsistent(s: State, calls: seq<Call>)
    requires Consistent(s)
    ensures Consistent(Run(s, calls))
    decreases |calls|
  {
    if calls != [] {
      SubmitKeepsConsistent(s, calls[0]);
      RunKeepsConsistent(Submit(s, calls[0]).0, calls[1..]);
    }
  }

  /** Nothing verified is ever taken back. */
  lemma NeverUnverified(s: State, calls: seq<Call>, c: Bytes32)
    requires s.Verified(c)
    ensures Run(s, calls).Verified(c)
  {
    RunVerifies(s, calls, c);
  }

  /** Order and repetition of the calls make no difference to the mapping. */
  lemma OrderIsIrrelevant(s: State, calls: seq<Call>, others: seq<Call>, c: Bytes32)
    requires forall call :: call in calls <==> call in others
    ensures Run(s, calls).Verified(c) <==> Run(s, others).Verified(c)
  {
    RunVerifies(s, calls, c);
    RunVerifies(s, others, c);
    SubmittedMonotone(calls, others, c);
    SubmittedMonotone(others, calls, c);
  }

  lemma SubmittedMonotone(calls: seq<Call>, others: seq<Call>, c: Bytes32)
    requires forall call :: call in calls ==> call in others
    ensures Submitted(calls, c) ==> Submitted(others, c)
  {
    if Submitted(calls, c) {
      var i :| 0 <= i < |calls| && Accepted(calls[i]) && calls[i].data.stateCommitment == c;
      assert calls[i] in others;
    }
  }

  lemma {:induction false} RunAppends(s: State, calls: seq<Call>, more: seq<Call>)
    ensures Run(s, calls + more) == Run(Run(s, calls), more)
    decreases |calls|
  {
    if calls == [] {
      assert calls + more == more;
    } else {
      assert (calls + more)[1..] == calls[1..] + more;
      RunAppends(Submit(s, calls[0]).0, calls[1..], more);
    }
  }
}
