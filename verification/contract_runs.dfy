/** Sequences of calls to the contract: every exported state-changing
    function as one `Call`, a reverted call leaving the storage as it was,
    and the properties that hold along any run. */
module ContractRuns {
  import opened Wrappers
  import opened Numerals
  import C = MailContract

  datatype Call =
    | RegisterEmail(caller: string, username: string)
    | CreateMessage(from: string, to: string, subject: string, bodyRef: string,
                    isEncrypted: string, timestamp: nat)
    | SendMessage(caller: string, to: string, id: string)
    | MarkAsRead(caller: string, id: string)
    | MarkAsSpam(caller: string, id: string)
    | ArchiveMessage(caller: string, id: string)
    | SetSpamList(caller: string, addresses: string)
    | SetMaxInboxDays(caller: string, days: string)
    | SetMaxSpamDays(caller: string, days: string)

  /** A call as the chain delivers it: a call that has a caller has a real one.
      (`createMessage` takes its `from` from the arguments.) */
  predicate Authentic(call: Call) {
    !call.CreateMessage? ==> C.ValidAddress(call.caller)
  }

  function Step(s: C.State, call: Call): Result<C.Reply, C.Error> {
    match call
    case RegisterEmail(caller, username) => C.RegisterEmail(s, caller, username)
    case CreateMessage(from, to, subject, bodyRef, isEncrypted, timestamp) =>
      C.CreateMessage(s, from, to, subject, bodyRef, isEncrypted, timestamp)
    case SendMessage(caller, to, id) => C.SendMessage(s, caller, to, id)
    case MarkAsRead(caller, id) => C.MarkAsRead(s, caller, id)
    case MarkAsSpam(caller, id) => C.MarkAsSpam(s, caller, id)
    case ArchiveMessage(caller, id) => C.ArchiveMessage(s, caller, id)
    case SetSpamList(caller, addresses) => C.SetSpamList(s, caller, addresses)
    case SetMaxInboxDays(caller, days) => C.SetMaxInboxDays(s, caller, days)
    case SetMaxSpamDays(caller, days) => C.SetMaxSpamDays(s, caller, days)
  }

  /** The storage after a call: a reverted call commits nothing. */
  function After(s: C.State, call: Call): C.State {
    var r := Step(s, call);
    if r.Success? then r.value.state else s
  }

  function Run(s: C.State, calls: seq<Call>): C.State
    decreases |calls|
  {
    if |calls| == 0 then s else Run(After(s, calls[0]), calls[1..])
  }

  lemma StepPreservesInvariant(s: C.State, call: Call)
    requires C.Invariant(s) && Authentic(call)
    ensures C.Invariant(After(s, call))
  {
    match call
    case RegisterEmail(caller, username) =>
      C.RegisterPreservesInvariant(s, caller, username);
    case CreateMessage(from, to, subject, bodyRef, isEncrypted, timestamp) =>
      C.CreateMessageAllocatesFreshId(s, from, to, subject, bodyRef, isEncrypted, timestamp);
    case _ =>
  }

  /** Every run of authentic calls keeps the alias maps inverse, the
      registration counter equal to the number of registered addresses, and
      every stored message under an id already handed out. */
  lemma {:induction false} RunPreservesInvariant(s: C.State, calls: seq<Call>)
    requires C.Invariant(s)
    requires forall i :: 0 <= i < |calls| ==> Authentic(calls[i])
    ensures C.Invariant(Run(s, calls))
    decreases |calls|
  {
    if |calls| > 0 {
      StepPreservesInvariant(s, calls[0]);
      RunPreservesInvariant(After(s, calls[0]), calls[1..]);
    }
  }

  /** From deployment on, `email_count` is the number of registered
      addresses. */
  lemma DeployedCountMatchesRegistrations(calls: seq<Call>)
    requires forall i :: 0 <= i < |calls| ==> Authentic(calls[i])
    ensures C.EmailCount(Run(C.Deploy(), calls)) == |Run(C.Deploy(), calls).emailByAddr|
    ensures C.Inverse(Run(C.Deploy(), calls).emailByAddr, Run(C.Deploy(), calls).addrByEmail)
  {
    RunPreservesInvariant(C.Deploy(), calls);
  }

  /** `t` keeps everything of `s` that is never rewritten: alias bindings in
      both directions and stored messages; and its id counter is no lower. */
  ghost predicate Keeps(s: C.State, t: C.State) {
    && (forall a :: a in s.emailByAddr ==> a in t.emailByAddr && t.emailByAddr[a] == s.emailByAddr[a])
    && (forall e :: e in s.addrByEmail ==> e in t.addrByEmail && t.addrByEmail[e] == s.addrByEmail[e])
    && (forall k :: k in s.messages ==> k in t.messages && t.messages[k] == s.messages[k])
    && C.CurrentId(s) <= C.CurrentId(t)
  }

  lemma StepKeeps(s: C.State, call: Call)
    requires C.Invariant(s)
    ensures Keeps(s, After(s, call))
  {
    var t := After(s, call);
    match call
    case RegisterEmail(caller, username) =>
      if C.RegisterEmail(s, caller, username).Success? {
        RegisterKeeps(s, caller, username);
      }
    case CreateMessage(from, to, subject, bodyRef, isEncrypted, timestamp) =>
      C.CreateMessageAllocatesFreshId(s, from, to, subject, bodyRef, isEncrypted, timestamp);
    case _ =>
      FrameKeeps(s, t);
  }

  lemma FrameKeeps(s: C.State, t: C.State)
    requires C.SameRegistry(s, t) && C.SameLedger(s, t)
    ensures Keeps(s, t)
  {
  }

  lemma RegisterKeeps(s: C.State, caller: string, username: string)
    requires C.Invariant(s) && C.RegisterEmail(s, caller, username).Success?
    ensures Keeps(s, C.RegisterEmail(s, caller, username).value.state)
  {
    assert caller !in s.emailByAddr;
    assert C.AliasFor(username) !in s.addrByEmail;
  }

  /** No call ever reassigns or deletes an alias binding or rewrites a
      stored message, and the id counter never goes back. */
  lemma {:induction false} RunKeeps(s: C.State, calls: seq<Call>)
    requires C.Invariant(s)
    requires forall i :: 0 <= i < |calls| ==> Authentic(calls[i])
    ensures Keeps(s, Run(s, calls))
    decreases |calls|
  {
    if |calls| > 0 {
      var s' := After(s, calls[0]);
      StepKeeps(s, calls[0]);
      StepPreservesInvariant(s, calls[0]);
      RunKeeps(s', calls[1..]);
    }
  }

  /** The counter values handed out by the `createMessage` calls of a run,
      in call order. */
  function AllocatedIds(s: C.State, calls: seq<Call>): seq<nat>
    decreases |calls|
  {
    if |calls| == 0 then []
    else
      var head := if calls[0].CreateMessage? then [C.CurrentId(s)] else [];
      head + AllocatedIds(After(s, calls[0]), calls[1..])
  }

  lemma StepCounter(s: C.State, call: Call)
    ensures call.CreateMessage? ==> C.CurrentId(After(s, call)) == C.CurrentId(s) + 1
    ensures C.CurrentId(s) <= C.CurrentId(After(s, call))
  {
  }

  predicate StrictlyIncreasing(ids: seq<nat>) {
    forall i, j :: 0 <= i < j < |ids| ==> ids[i] < ids[j]
  }

  predicate AllWithin(ids: seq<nat>, lo: nat, hi: nat) {
    forall i :: 0 <= i < |ids| ==> lo <= ids[i] < hi
  }

  lemma PrependSmallest(x: nat, rest: seq<nat>, hi: nat)
    requires StrictlyIncreasing(rest) && AllWithin(rest, x + 1, hi) && x < hi
    ensures StrictlyIncreasing([x] + rest) && AllWithin([x] + rest, x, hi)
  {
    var ids := [x] + rest;
    forall i | 1 <= i < |ids|
      ensures ids[i] == rest[i - 1]
    {
    }
  }

  /** Along any run the ids `createMessage` hands out strictly increase and
      all lie between the counter before and after the run. */
  lemma {:induction false} AllocatedIdsIncrease(s: C.State, calls: seq<Call>)
    ensures StrictlyIncreasing(AllocatedIds(s, calls))
    ensures AllWithin(AllocatedIds(s, calls), C.CurrentId(s), C.CurrentId(Run(s, calls)))
    decreases |calls|
  {
    if |calls| > 0 {
      var s' := After(s, calls[0]);
      StepCounter(s, calls[0]);
      AllocatedIdsIncrease(s', calls[1..]);
      var rest := AllocatedIds(s', calls[1..]);
      var hi := C.CurrentId(Run(s', calls[1..]));
      assert C.CurrentId(s') <= hi by {
        RunCounter(s', calls[1..]);
      }
      if calls[0].CreateMessage? {
        PrependSmallest(C.CurrentId(s), rest, hi);
      }
    }
  }

  lemma {:induction false} RunCounter(s: C.State, calls: seq<Call>)
    ensures C.CurrentId(s) <= C.CurrentId(Run(s, calls))
    decreases |calls|
  {
    if |calls| > 0 {
      StepCounter(s, calls[0]);
      RunCounter(After(s, calls[0]), calls[1..]);
    }
  }

  /** The id texts the `createMessage` calls of a run return, in call
      order. */
  function IssuedIds(s: C.State, calls: seq<Call>): seq<string>
    decreases |calls|
  {
    if |calls| == 0 then []
    else
      var head := if calls[0].CreateMessage? then [Step(s, calls[0]).value.output] else [];
      head + IssuedIds(After(s, calls[0]), calls[1..])
  }

  /** Each returned id text is the decimal text of the counter value
      handed out at that call. */
  lemma {:induction false} IssuedIdsAreDecimal(s: C.State, calls: seq<Call>)
    ensures |IssuedIds(s, calls)| == |AllocatedIds(s, calls)|
    ensures forall i :: 0 <= i < |IssuedIds(s, calls)| ==>
              IssuedIds(s, calls)[i] == Decimal(AllocatedIds(s, calls)[i])
    decreases |calls|
  {
    if |calls| > 0 {
      IssuedIdsAreDecimal(After(s, calls[0]), calls[1..]);
    }
  }

  /** No two `createMessage` calls of a run return the same id text: no id
      is ever handed out twice. */
  lemma AllocatedIdTextsDistinct(s: C.State, calls: seq<Call>)
    ensures var texts := IssuedIds(s, calls);
            forall i, j :: 0 <= i < j < |texts| ==> texts[i] != texts[j]
  {
    var ids := AllocatedIds(s, calls);
    var texts := IssuedIds(s, calls);
    AllocatedIdsIncrease(s, calls);
    IssuedIdsAreDecimal(s, calls);
    assert StrictlyIncreasing(ids);
    forall i, j | 0 <= i < j < |texts|
      ensures texts[i] != texts[j]
    {
      assert texts[i] == Decimal(ids[i]) && texts[j] == Decimal(ids[j]);
      if texts[i] == texts[j] {
        DecimalInjective(ids[i], ids[j]);
      }
    }
  }
}
