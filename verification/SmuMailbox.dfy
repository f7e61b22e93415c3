/**
  The mailbox between the host and the power-management firmware: a message register, a
  parameter register and a response register, in which 0 means that there is no response yet.

  Host and firmware run concurrently. Every register access of the host is one step, and the
  firmware may answer a posted message at any time, once, with a nonzero code.
 */
module SmuMailbox {

  /** What a caller of SendMessageToSMC wants to have sent. */
  datatype Request = Request(message: nat, parameter: nat)

  /** Where the host stands in SendMessageToSMC, with the polls made so far in a wait. */
  datatype Pc =
    | Idle
    | OpenWait(polls: nat, call: Request)
    | PutParameter(call: Request)
    | ClearResponse(message: nat)
    | PutMessage(message: nat)
    | CloseWait(polls: nat)
    | TakeParameter(response: nat)
    | Returned(response: nat, out: nat)

  /** `asked` are the calls so far; `posted` counts the messages; `found` holds what the registers said when each was
      posted; `open` are those the firmware has not answered; `answers` holds what it answered; `waited` tells whether
      every opening wait so far saw a response. */
  datatype Mailbox = Mailbox(pc: Pc, response: nat, parameter: nat, asked: seq<Request>, posted: nat,
                             found: map<nat, Request>, open: set<nat>, answers: map<nat, (nat, nat)>, waited: bool)

  datatype Action =
    | Send(call: Request)
    | Host
    | Answer(id: nat, code: nat, out: nat)

  /** The state at boot: the firmware is ready and nothing was posted. */
  predicate Boot(s: Mailbox) {
    && s.pc == Idle && s.response != 0 && s.asked == [] && s.posted == 0 && s.found == map[] && s.open == {}
    && s.answers == map[] && s.waited
  }

  /** One poll of SMUWaitForResponse, which gives up after `max` polls. */
  function Poll(s: Mailbox, polls: nat, max: nat): (r: (bool, nat)) {
    if polls >= max then (true, 0) else (s.response != 0, s.response)
  }

  /** SMUWaitForResponse, where `values[i]` is what poll `i` finds in the response register and the
      length of `values` is the number of polls allowed. */
  method WaitForResponse(values: seq<nat>) returns (response: nat, polls: nat)
    ensures polls <= |values|
    ensures response != 0 ==> 0 < polls && response == values[polls - 1] && forall i :: 0 <= i < polls - 1 ==> values[i] == 0
    ensures response == 0 ==> polls == |values| && forall i :: 0 <= i < |values| ==> values[i] == 0
  {
    response, polls := 0, 0;
    while polls < |values|
      invariant polls <= |values| && response == 0 && forall i :: 0 <= i < polls ==> values[i] == 0
    {
      response := values[polls];
      polls := polls + 1;
      if response != 0 {
        break;
      }
    }
  }

  /** One register access of the host. */
  function HostStep(s: Mailbox, max: nat): (r: Mailbox) {
    match s.pc
    case Idle => s
    case Returned(_, _) => s.(pc := Idle)
    case OpenWait(polls, call) =>
      var (done, seen) := Poll(s, polls, max);
      if !done then s.(pc := OpenWait(polls + 1, call))
      else s.(pc := PutParameter(call), waited := s.waited && seen != 0)
    case PutParameter(call) => s.(pc := ClearResponse(call.message), parameter := call.parameter)
    case ClearResponse(message) => s.(pc := PutMessage(message), response := 0)
    case PutMessage(message) =>
      var id := s.posted + 1;
      s.(pc := CloseWait(0), posted := id, open := s.open + {id}, found := s.found[id := Request(message, s.parameter)])
    case CloseWait(polls) =>
      var (done, seen) := Poll(s, polls, max);
      if !done then s.(pc := CloseWait(polls + 1)) else s.(pc := TakeParameter(seen))
    case TakeParameter(seen) => s.(pc := Returned(seen, s.parameter))
  }

  function Next(s: Mailbox, a: Action, max: nat): (r: Mailbox) {
    match a
    case Send(call) => if s.pc == Idle then s.(pc := OpenWait(0, call), asked := s.asked + [call]) else s
    case Host => HostStep(s, max)
    case Answer(id, code, out) =>
      if id in s.open && code != 0 then
        s.(response := code, parameter := out, open := s.open - {id}, answers := s.answers[id := (code, out)])
      else s
  }

  function Run(s: Mailbox, actions: seq<Action>, max: nat): (r: Mailbox) {
    if actions == [] then s else Next(Run(s, actions[..|actions| - 1], max), actions[|actions| - 1], max)
  }

  /** The response and the parameter register hold the answer to the last message posted. */
  predicate Answered(s: Mailbox, response: nat, parameter: nat) {
    s.posted in s.answers && s.answers[s.posted] == (response, parameter)
  }

  /** Between an opening wait and the posting of the message. */
  predicate Posting(s: Mailbox) {
    s.pc.PutParameter? || s.pc.ClearResponse? || s.pc.PutMessage?
  }

  /** At most the last message is unanswered, a response in the register means that it is not, nothing is
      unanswered between an opening wait and the posting; while the host waits for the last message, the
      registers hold its answer as soon as there is one; and what the host has found is that answer. */
  ghost predicate Core(s: Mailbox) {
    && s.open <= {s.posted}
    && (s.response != 0 ==> s.open == {})
    && (Posting(s) ==> s.open == {})
    && (s.pc.PutMessage? ==> s.response == 0)
    && (s.pc.CloseWait? ==> (s.response != 0 <==> s.posted in s.answers))
    && (s.pc.CloseWait? && s.response != 0 ==> Answered(s, s.response, s.parameter))
    && (s.pc.TakeParameter? && s.pc.response != 0 ==>
          Answered(s, s.pc.response, s.parameter) && s.open == {})
    && (s.pc.Returned? && s.pc.response != 0 ==> Answered(s, s.pc.response, s.pc.out) && s.open == {})
  }

  /** Every message posted is found by the firmware as its caller wanted it, and the host is about to send the last. */
  ghost predicate Carries(s: Mailbox) {
    && |s.asked| == s.posted + (if s.pc.OpenWait? || Posting(s) then 1 else 0)
    && (forall id :: 1 <= id <= s.posted ==> id in s.found && s.found[id] == s.asked[id - 1])
    && (s.pc.OpenWait? || s.pc.PutParameter? ==> s.pc.call == s.asked[s.posted])
    && (s.pc.ClearResponse? || s.pc.PutMessage? ==> Request(s.pc.message, s.parameter) == s.asked[s.posted])
  }

  /** Only messages that were posted are open or answered. */
  ghost predicate NoneAhead(s: Mailbox) {
    && (forall id :: id in s.open ==> id <= s.posted && id !in s.answers)
    && (forall id :: id in s.answers ==> id <= s.posted)
  }

  /** What every interleaving keeps: an empty response register tells of an unanswered message, except just before a
      message is posted; and the core, as long as every opening wait saw a response. */
  ghost predicate Inv(s: Mailbox, max: nat) {
    && (s.pc.OpenWait? || s.pc.CloseWait? ==> s.pc.polls <= max)
    && NoneAhead(s)
    && (!s.pc.PutMessage? && s.response == 0 ==> s.open != {})
    && (s.waited ==> Core(s) && Carries(s))
  }

  /** An opening wait that is about to give up. */
  predicate GivesUp(s: Mailbox, max: nat) {
    s.pc.OpenWait? && s.pc.polls >= max
  }

  lemma AheadKeeps(s: Mailbox, a: Action, max: nat)
    requires NoneAhead(s)
    ensures NoneAhead(Next(s, a, max))
  {}

  lemma HostKeeps(s: Mailbox, max: nat)
    requires NoneAhead(s) && Core(s)
    ensures !GivesUp(s, max) ==> Core(HostStep(s, max))
    ensures GivesUp(s, max) ==> Posting(HostStep(s, max)) && HostStep(s, max).posted == s.posted && !HostStep(s, max).waited
  {}

  /** The registers reach the firmware as the host wrote them, since nothing is unanswered then. */
  lemma CarriesKeeps(s: Mailbox, a: Action, max: nat)
    requires NoneAhead(s) && Core(s) && Carries(s)
    ensures Carries(Next(s, a, max))
  {}

  lemma AnswerKeeps(s: Mailbox, id: nat, code: nat, out: nat, max: nat)
    requires NoneAhead(s) && Core(s)
    ensures Core(Next(s, Answer(id, code, out), max))
  {
    var s' := Next(s, Answer(id, code, out), max);
    if id in s.open && code != 0 {
      assert id == s.posted;
      assert s'.open == {};
    }
  }

  /** Whatever host and firmware do, and in whatever order. */
  lemma {:induction false} RunKeeps(s: Mailbox, actions: seq<Action>, max: nat)
    requires Boot(s)
    ensures Inv(Run(s, actions, max), max)
    decreases |actions|
  {
    if actions != [] {
      var front, a := actions[..|actions| - 1], actions[|actions| - 1];
      RunKeeps(s, front, max);
      var r := Run(s, front, max);
      AheadKeeps(r, a, max);
      if r.waited {
        CarriesKeeps(r, a, max);
        match a
        case Send(_) =>
        case Host => HostKeeps(r, max);
        case Answer(id, code, out) => AnswerKeeps(r, id, code, out, max);
      }
    }
  }

  /** Over every interleaving in which no opening wait timed out, a nonzero response that
      SendMessageToSMC returns, and the parameter it reads, are the firmware's answer to the message
      just posted; an answer given while the host waits is not lost; and no wait polls more than
      `max` times. */
  lemma ResponseIsFresh(s: Mailbox, actions: seq<Action>, max: nat)
    requires Boot(s)
    ensures var r := Run(s, actions, max);
            && (r.pc.OpenWait? || r.pc.CloseWait? ==> r.pc.polls <= max)
            && (r.waited && r.pc.Returned? && r.pc.response != 0 ==> Answered(r, r.pc.response, r.pc.out))
            && (r.waited && r.pc.CloseWait? && r.posted in r.answers ==>
                  r.response != 0 && Answered(r, r.response, r.parameter))
  {
    RunKeeps(s, actions, max);
  }

  /** Over every interleaving in which no opening wait timed out: as long as polls are left, an answer to the message
      just posted is returned by the next two accesses, and without an answer the host goes on waiting. */
  lemma AnswerReturned(s: Mailbox, actions: seq<Action>, max: nat)
    requires Boot(s)
    ensures var r := Run(s, actions, max);
            r.waited && r.pc.CloseWait? && r.pc.polls < max ==>
              if r.posted in r.answers then
                Run(s, actions + [Host] + [Host], max).pc == Returned(r.answers[r.posted].0, r.answers[r.posted].1)
              else Run(s, actions + [Host], max).pc == CloseWait(r.pc.polls + 1)
  {
    hide Run;
    RunKeeps(s, actions, max);
    RunMore(s, actions, Host, max);
    RunMore(s, actions + [Host], Host, max);
  }

  /** Over every interleaving in which no opening wait timed out, the firmware finds the messages of all calls, in
      order, each with its own parameter. */
  lemma MessagesDelivered(s: Mailbox, actions: seq<Action>, max: nat)
    requires Boot(s)
    ensures var r := Run(s, actions, max);
            r.waited ==>
              && r.posted <= |r.asked| <= r.posted + 1
              && (forall id :: 1 <= id <= r.posted ==> id in r.found && r.found[id] == r.asked[id - 1])
  {
    RunKeeps(s, actions, max);
  }

  // ------------------------------------------------- when an opening wait gives up

  /** In the state `r`, the call that posts message `n + 1` has not returned an answer to another message. */
  ghost predicate Fresh(r: Mailbox, n: nat) {
    r.posted == n + 1 && r.pc.Returned? && r.pc.response != 0 ==> Answered(r, r.pc.response, r.pc.out)
  }

  /** What holds from the end of an opening wait, with nothing unanswered, until the next message is posted. */
  ghost predicate InCall(s: Mailbox, n: nat) {
    || s.posted > n + 1
    || (s.posted == n + 1 && (Core(s) || Posting(s)))
    || (s.posted == n && Core(s) && Posting(s))
  }

  lemma {:induction false} InCallKeeps(s: Mailbox, actions: seq<Action>, max: nat)
    requires s.pc.PutParameter? && s.open == {} && NoneAhead(s)
    ensures InCall(Run(s, actions, max), s.posted) && NoneAhead(Run(s, actions, max))
    decreases |actions|
  {
    if actions != [] {
      var front, a := actions[..|actions| - 1], actions[|actions| - 1];
      InCallKeeps(s, front, max);
      var r := Run(s, front, max);
      AheadKeeps(r, a, max);
      if Core(r) {
        match a
        case Send(_) =>
        case Host => HostKeeps(r, max);
        case Answer(id, code, out) => AnswerKeeps(r, id, code, out, max);
      }
    }
  }

  /** If an earlier message is still unanswered when the host goes on to post, a late answer to that message can
      be returned for the new one, which has none. */
  lemma StaleAnswerPossible(s: Mailbox, id: nat, code: nat, out: nat, max: nat)
    requires s.pc.PutParameter? && id in s.open && NoneAhead(s) && code != 0 && max > 0
    ensures var r := Run(s, [Host, Host, Host, Answer(id, code, out), Host, Host], max);
            r.pc == Returned(code, out) && r.posted == s.posted + 1 && r.posted !in r.answers
  {
    hide Run;
    var actions := [Host, Host, Host, Answer(id, code, out), Host, Host];
    RunStep(s, actions, 0, max);
    RunStep(s, actions, 1, max);
    RunStep(s, actions, 2, max);
    var n := s.posted + 1;
    assert Run(s, actions[..3], max) ==
           s.(pc := CloseWait(0), parameter := s.pc.call.parameter, response := 0,
              posted := n, open := s.open + {n}, found := s.found[n := s.pc.call]);
    RunStep(s, actions, 3, max);
    RunStep(s, actions, 4, max);
    RunStep(s, actions, 5, max);
    assert actions[..6] == actions;
  }

  lemma RunStep(s: Mailbox, actions: seq<Action>, i: nat, max: nat)
    requires i < |actions|
    ensures Run(s, actions[..i + 1], max) == Next(Run(s, actions[..i], max), actions[i], max)
    ensures Run(s, actions[..0], max) == s
  {
    assert actions[..i + 1][..i] == actions[..i];
  }

  /** After an opening wait, whether it saw a response or not: every continuation returns only the answer to the
      message that is posted next exactly when no message is unanswered at that point. */
  lemma FreshExactly(s: Mailbox, max: nat)
    requires s.pc.PutParameter? && max > 0 && NoneAhead(s)
    ensures s.open == {} <==> forall actions: seq<Action> :: Fresh(Run(s, actions, max), s.posted)
  {
    if s.open == {} {
      forall actions: seq<Action>
        ensures Fresh(Run(s, actions, max), s.posted)
      {
        InCallKeeps(s, actions, max);
      }
    } else {
      var id :| id in s.open;
      StaleAnswerPossible(s, id, 1, 0, max);
      assert !Fresh(Run(s, [Host, Host, Host, Answer(id, 1, 0), Host, Host], max), s.posted);
    }
  }

  /** What the host can read tells. When the first opening wait that may have given up is over, every continuation
      returns only the answer to the message posted next exactly when the response register is not empty. */
  lemma RegisterTells(boot: Mailbox, actions: seq<Action>, max: nat)
    requires Boot(boot) && max > 0
    requires var s := Run(boot, actions, max); s.waited && s.pc.OpenWait? && HostStep(s, max).pc.PutParameter?
    ensures var r := HostStep(Run(boot, actions, max), max);
            r.response != 0 <==> forall more: seq<Action> :: Fresh(Run(r, more, max), r.posted)
  {
    var s := Run(boot, actions, max);
    RunKeeps(boot, actions, max);
    AheadKeeps(s, Host, max);
    FreshExactly(HostStep(s, max), max);
  }

  /** A wait for an answer that does not come ends after `max` polls with nothing. */
  lemma {:induction false} WaitsInVain(s: Mailbox, actions: seq<Action>, n: nat, max: nat)
    requires n <= max && Run(s, actions, max).pc == CloseWait(max - n) && Run(s, actions, max).response == 0
    ensures var r := Run(s, actions, max);
            Run(s, actions + Polls(n + 1), max) == r.(pc := TakeParameter(0))
    decreases n
  {
    hide Run;
    RunMore(s, actions, Host, max);
    if n > 0 {
      WaitsInVain(s, actions + [Host], n - 1, max);
      assert actions + [Host] + Polls(n) == actions + Polls(n + 1);
    } else {
      assert Polls(1) == [Host];
    }
  }

  lemma {:induction false} GivesUpInVain(s: Mailbox, actions: seq<Action>, n: nat, call: Request, max: nat)
    requires n <= max && Run(s, actions, max).pc == OpenWait(max - n, call) && Run(s, actions, max).response == 0
    ensures var r := Run(s, actions, max);
            Run(s, actions + Polls(n + 1), max) == r.(pc := PutParameter(call), waited := false)
    decreases n
  {
    hide Run;
    RunMore(s, actions, Host, max);
    if n > 0 {
      GivesUpInVain(s, actions + [Host], n - 1, call, max);
      assert actions + [Host] + Polls(n) == actions + Polls(n + 1);
    } else {
      assert Polls(1) == [Host];
    }
  }

  function Polls(n: nat): (r: seq<Action>)
    ensures |r| == n
  {
    seq(n, _ => Host)
  }

  lemma RunMore(s: Mailbox, actions: seq<Action>, a: Action, max: nat)
    ensures Run(s, actions + [a], max) == Next(Run(s, actions, max), a, max)
  {
    assert (actions + [a])[..|actions|] == actions;
  }

  /** However many polls a wait makes: if the firmware does not answer, two calls lead to the posting of a message
      while another one is unanswered. */
  lemma UnansweredAtPosting(s: Mailbox, first: Request, second: Request, max: nat) returns (actions: seq<Action>)
    requires Boot(s)
    ensures var r := Run(s, actions, max);
            r.pc == PutParameter(second) && r.response == 0 && r.open == {1} && r.posted == 1 && !r.waited
  {
    actions := Post(s, first, max);
    WaitsInVain(s, actions, max, max);
    actions := actions + Polls(max + 1);
    RunMore(s, actions, Host, max);
    actions := actions + [Host];
    RunMore(s, actions, Host, max);
    actions := actions + [Host];
    RunMore(s, actions, Send(second), max);
    actions := actions + [Send(second)];
    GivesUpInVain(s, actions, max, second, max);
    actions := actions + Polls(max + 1);
  }

  /** The first call, up to the wait for its answer. */
  lemma Post(s: Mailbox, call: Request, max: nat) returns (actions: seq<Action>)
    requires Boot(s)
    ensures Run(s, actions, max) ==
              s.(pc := CloseWait(0), response := 0, parameter := call.parameter, asked := [call], posted := 1,
                 found := map[1 := call], open := {1}, waited := max > 0)
  {
    actions := [];
    RunMore(s, actions, Send(call), max);
    actions := actions + [Send(call)];
    RunMore(s, actions, Host, max);
    actions := actions + [Host];
    RunMore(s, actions, Host, max);
    actions := actions + [Host];
    RunMore(s, actions, Host, max);
    actions := actions + [Host];
    RunMore(s, actions, Host, max);
    actions := actions + [Host];
  }
}
