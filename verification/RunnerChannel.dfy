/**
 The conversation between the callers of one runner and its connection loop, over two channels that hold at
 most one message each. Callers are serialised by the checker's semaphore; cancellations and a disconnect may
 come at any moment. A command is numbered by the call that issues it; a response carries the number of the
 command it answers.
 */
module RunnerChannel {
  import opened Options

  /** The call under way: waiting to hand over its command, or waiting for a response. */
  datatype Caller = Nobody | Writing(command: nat) | Reading(command: nat)

  /** The connection loop; it closes the request channel first and the response channel second. */
  datatype Server = Listening | Sent(command: nat) | Answering(response: nat) | Stopping | Stopped

  /** How a call ended. */
  datatype End = Returned(command: nat, response: nat) | ChannelClosed(command: nat) | Cancelled(command: nat)

  /** `readCancellable` says whether waiting for the response listens to the caller's token; the service says no. */
  datatype State = State(readCancellable: bool, issued: nat, caller: Caller, request: seq<nat>, server: Server,
                         response: seq<nat>, ends: seq<End>)
  {
    predicate RequestClosed() {
      server.Stopping? || server.Stopped?
    }
  }

  datatype Step =
    | Call
    | WriteRequest
    | WriteFails
    | CancelWrite
    | CancelRead
    | ReadResponse
    | ReadFails
    | Take
    | Answer
    | Respond
    | Disconnect
    | CloseResponses

  predicate Enabled(s: State, step: Step) {
    match step
    case Call => s.caller.Nobody?
    case WriteRequest => s.caller.Writing? && !s.RequestClosed() && |s.request| < 1
    case WriteFails => s.caller.Writing? && s.RequestClosed()
    case CancelWrite => s.caller.Writing?
    case CancelRead => s.caller.Reading? && s.readCancellable
    case ReadResponse => s.caller.Reading? && s.response != []
    case ReadFails => s.caller.Reading? && s.response == [] && s.server.Stopped?
    case Take => s.server.Listening? && s.request != []
    case Answer => s.server.Sent?
    case Respond => s.server.Answering? && |s.response| < 1
    case Disconnect => !s.RequestClosed()
    case CloseResponses => s.server.Stopping?
  }

  function Next(s: State, step: Step): State
    requires Enabled(s, step)
  {
    match step
    case Call => s.(caller := Writing(s.issued), issued := s.issued + 1)
    case WriteRequest => s.(caller := Reading(s.caller.command), request := s.request + [s.caller.command])
    case WriteFails => s.(caller := Nobody, ends := s.ends + [ChannelClosed(s.caller.command)])
    case CancelWrite => s.(caller := Nobody, ends := s.ends + [Cancelled(s.caller.command)])
    case CancelRead => s.(caller := Nobody, ends := s.ends + [Cancelled(s.caller.command)])
    case ReadResponse =>
      s.(caller := Nobody, response := s.response[1..], ends := s.ends + [Returned(s.caller.command, s.response[0])])
    case ReadFails => s.(caller := Nobody, ends := s.ends + [ChannelClosed(s.caller.command)])
    case Take => s.(server := Sent(s.request[0]), request := s.request[1..])
    case Answer => s.(server := Answering(s.server.command))
    case Respond => s.(server := Listening, response := s.response + [s.server.response])
    case Disconnect => s.(server := Stopping)
    case CloseResponses => s.(server := Stopped)
  }

  function Init(readCancellable: bool): State {
    State(readCancellable, 0, Nobody, [], Listening, [], [])
  }

  ghost predicate IsRun(states: seq<State>, steps: seq<Step>, readCancellable: bool) {
    && |states| == |steps| + 1
    && states[0] == Init(readCancellable)
    && forall i :: 0 <= i < |steps| ==> Enabled(states[i], steps[i]) && states[i + 1] == Next(states[i], steps[i])
  }

  // ---------- What every run keeps ----------

  /** The messages on their way, wherever they are. */
  function InFlight(s: State): seq<nat> {
    (if s.RequestClosed() then [] else s.request)
    + (if s.server.Sent? then [s.server.command] else if s.server.Answering? then [s.server.response] else [])
    + s.response
  }

  /** Nothing is on its way unless its own caller waits for it, and then it is the only message. */
  ghost predicate OneInFlight(s: State) {
    && (InFlight(s) == [] || (s.caller.Reading? && InFlight(s) == [s.caller.command]))
    && (s.caller.Reading? && !s.RequestClosed() ==> InFlight(s) == [s.caller.command])
    && |s.request| <= 1
  }

  /** Every call that returns a response returns the response to its own command. */
  ghost predicate OwnResponses(s: State) {
    forall i :: 0 <= i < |s.ends| && s.ends[i].Returned? ==> s.ends[i].response == s.ends[i].command
  }

  /** Calls end one at a time, in the order in which they were issued. */
  ghost predicate OneEndEach(s: State) {
    && s.issued == |s.ends| + (if s.caller.Nobody? then 0 else 1)
    && (forall i :: 0 <= i < |s.ends| ==> s.ends[i].command == i)
    && (!s.caller.Nobody? ==> s.caller.command == |s.ends|)
  }

  ghost predicate Inv(s: State) {
    !s.readCancellable && OneInFlight(s) && OwnResponses(s) && OneEndEach(s)
  }

  lemma StepKeepsOneInFlight(s: State, step: Step)
    requires !s.readCancellable && OneInFlight(s) && Enabled(s, step)
    ensures OneInFlight(Next(s, step))
  {
    var t := Next(s, step);
    if step.WriteRequest? {
      assert s.request == [] && InFlight(s) == [];
      assert InFlight(t) == [t.caller.command];
    } else if step.Take? || step.Respond? || step.Answer? {
      assert |InFlight(s)| == 1;
      assert InFlight(t) == InFlight(s);
    } else if step.ReadResponse? {
      assert InFlight(s)[|InFlight(s)| - 1] == s.response[|s.response| - 1];
      assert InFlight(t) == [];
    }
  }

  /** What is read is the response to the command of the reading call. */
  lemma OwnResponseIsRead(s: State)
    requires OneInFlight(s) && Enabled(s, ReadResponse)
    ensures s.response == [s.caller.command]
  {
    assert InFlight(s)[|InFlight(s)| - 1] == s.response[|s.response| - 1];
  }

  lemma StepKeepsEnds(s: State, step: Step)
    requires OwnResponses(s) && OneEndEach(s) && Enabled(s, step)
    requires step.ReadResponse? ==> s.response == [s.caller.command]
    ensures OwnResponses(Next(s, step)) && OneEndEach(Next(s, step))
  {
    hide InFlight, OneInFlight;
  }

  lemma StepKeepsInv(s: State, step: Step)
    requires Inv(s) && Enabled(s, step)
    ensures Inv(Next(s, step))
  {
    hide OneInFlight, OwnResponses, OneEndEach, InFlight;
    StepKeepsOneInFlight(s, step);
    if step.ReadResponse? {
      OwnResponseIsRead(s);
    }
    StepKeepsEnds(s, step);
  }

  lemma {:induction false} RunKeepsInv(states: seq<State>, steps: seq<Step>, i: nat)
    requires IsRun(states, steps, false) && i < |states|
    ensures Inv(states[i])
  {
    if i > 0 {
      RunKeepsInv(states, steps, i - 1);
      StepKeepsInv(states[i - 1], steps[i - 1]);
    }
  }

  /**
   Whatever the interleaving: call number i ends i-th, with the response to its own command or without any;
   and whenever no call waits for a response, no message is left over for a later one.
   */
  lemma CallsGetTheirOwnResponse(states: seq<State>, steps: seq<Step>, i: nat)
    requires IsRun(states, steps, false) && i < |states|
    ensures var s := states[i];
      && (forall k :: 0 <= k < |s.ends| ==>
            s.ends[k] == Returned(k, k) || s.ends[k] == ChannelClosed(k) || s.ends[k] == Cancelled(k))
      && (!s.caller.Reading? ==> s.response == [] && (s.request == [] || s.RequestClosed()) && !s.server.Sent? && !s.server.Answering?)
      && |InFlight(s)| <= 1
  {
    RunKeepsInv(states, steps, i);
    var s := states[i];
    assert |InFlight(s)| >= |s.response|;
  }

  // ---------- A waiting call is always served ----------

  predicate ServerStep(step: Step) {
    step.Take? || step.Answer? || step.Respond? || step.CloseResponses?
  }

  function Remaining(s: State): nat {
    match s.server
    case Listening => if s.request != [] then 3 else 0
    case Sent(_) => 2
    case Answering(_) => 1
    case Stopping => 1
    case Stopped => 0
  }

  /** While a call waits, either its response or its failure can be delivered, or the server has a step to make. */
  lemma WaitingIsServed(s: State)
    requires Inv(s) && s.caller.Reading?
    ensures Enabled(s, ReadResponse) || Enabled(s, ReadFails) || (exists step :: ServerStep(step) && Enabled(s, step))
    ensures forall step :: ServerStep(step) && Enabled(s, step) ==> Remaining(Next(s, step)) < Remaining(s)
    ensures Remaining(s) == 0 ==> Enabled(s, ReadResponse) || Enabled(s, ReadFails)
  {
    match s.server
    case Listening =>
      if s.request != [] { assert ServerStep(Take) && Enabled(s, Take); }
    case Sent(_) => assert ServerStep(Answer) && Enabled(s, Answer);
    case Answering(_) =>
      assert |InFlight(s)| == 1;
      assert ServerStep(Respond) && Enabled(s, Respond);
    case Stopping => assert ServerStep(CloseResponses) && Enabled(s, CloseResponses);
    case Stopped =>
  }

  // ---------- Why the read ignores the token ----------

  predicate Leads(s: State, step: Step, t: State) {
    Enabled(s, step) && t == Next(s, step)
  }

  /** A call is cancelled after its command has been taken; its response is left over. */
  lemma ResponseIsLeftOver() returns (states: seq<State>)
    ensures |states| == 7 && states[0] == Init(true)
    ensures Leads(states[0], Call, states[1]) && Leads(states[1], WriteRequest, states[2]) && Leads(states[2], Take, states[3])
    ensures Leads(states[3], CancelRead, states[4]) && Leads(states[4], Answer, states[5]) && Leads(states[5], Respond, states[6])
    ensures states[6] == State(true, 1, Nobody, [], Listening, [0], [Cancelled(0)])
  {
    states := [Init(true),
               State(true, 1, Writing(0), [], Listening, [], []),
               State(true, 1, Reading(0), [0], Listening, [], []),
               State(true, 1, Reading(0), [], Sent(0), [], []),
               State(true, 1, Nobody, [], Sent(0), [], [Cancelled(0)]),
               State(true, 1, Nobody, [], Answering(0), [], [Cancelled(0)]),
               State(true, 1, Nobody, [], Listening, [0], [Cancelled(0)])];
  }

  /** The next call reads it. */
  lemma LeftOverIsRead(s: State) returns (states: seq<State>)
    requires s == State(true, 1, Nobody, [], Listening, [0], [Cancelled(0)])
    ensures |states| == 3
    ensures Leads(s, Call, states[0]) && Leads(states[0], WriteRequest, states[1]) && Leads(states[1], ReadResponse, states[2])
    ensures states[2].ends == [Cancelled(0), Returned(1, 0)]
  {
    states := [State(true, 2, Writing(1), [], Listening, [0], [Cancelled(0)]),
               State(true, 2, Reading(1), [1], Listening, [0], [Cancelled(0)]),
               State(true, 2, Nobody, [1], Listening, [], [Cancelled(0), Returned(1, 0)])];
  }

  /** Were the read cancellable, the abandoned response would be handed to the next call. */
  lemma CancelledReadMisdelivers() returns (states: seq<State>, steps: seq<Step>)
    ensures IsRun(states, steps, true)
    ensures Returned(1, 0) in states[|steps|].ends
  {
    hide Enabled, Next, Init;
    var before := ResponseIsLeftOver();
    var after := LeftOverIsRead(before[6]);
    steps := [Call, WriteRequest, Take, CancelRead, Answer, Respond, Call, WriteRequest, ReadResponse];
    states := before + after;
    assert states[9] == after[2] && after[2].ends[1] == Returned(1, 0);
  }

  /** Calls receive only their own responses, over all runs, exactly because the read ignores the caller's token. */
  lemma OwnResponsesExactlyIfReadIsNotCancellable(readCancellable: bool)
    ensures (forall states, steps :: IsRun(states, steps, readCancellable) ==> OwnResponses(states[|steps|]))
       <==> !readCancellable
  {
    if readCancellable {
      var states, steps := CancelledReadMisdelivers();
      assert IsRun(states, steps, readCancellable) && !OwnResponses(states[|steps|]);
    } else {
      forall states, steps | IsRun(states, steps, readCancellable) ensures OwnResponses(states[|steps|]) {
        RunKeepsInv(states, steps, |steps|);
      }
    }
  }

  // ---------- The service ----------

  /** One connected runner. The methods of `Run` and `Connect` are cut where they may have to wait. */
  class RunnerService {
    var issued: nat
    var caller: Caller
    var request: seq<nat>
    var server: Server
    var response: seq<nat>
    var ends: seq<End>

    function Contents(): State
      reads this
    {
      State(false, issued, caller, request, server, response, ends)
    }

    constructor ()
      ensures Contents() == Init(false)
    {
      issued, caller, request, server, response, ends := 0, Nobody, [], Listening, [], [];
    }

    /** Enters `Run`: the semaphore admits one caller at a time. */
    method BeginRun() returns (command: nat)
      requires caller.Nobody?
      modifies this
      ensures command == old(issued) && Contents() == Next(old(Contents()), Call)
      ensures caller == Writing(command) && issued == old(issued) + 1
      ensures request == old(request) && server == old(server) && response == old(response) && ends == old(ends)
    {
      command := issued;
      issued := issued + 1;
      caller := Writing(command);
    }

    /** One try at handing over the command; `cancelled` is the state of the caller's token. None: keep waiting. */
    method TryWrite(cancelled: bool) returns (end: Option<End>)
      requires caller.Writing?
      modifies this
      ensures Contents() == old(Contents()) ||
              (exists step :: step in {WriteRequest, WriteFails, CancelWrite} && Enabled(old(Contents()), step)
                && Contents() == Next(old(Contents()), step))
      ensures var command, closed := old(caller).command, old(server).Stopping? || old(server).Stopped?;
        && end == (if cancelled then Some(Cancelled(command)) else if closed then Some(ChannelClosed(command)) else None)
        && (end.Some? ==> caller == Nobody && ends == old(ends) + [end.value] && request == old(request))
        && (end.None? && old(request) == [] ==> caller == Reading(command) && ends == old(ends) && request == [command])
        && (end.None? && old(request) != [] ==> caller == old(caller) && ends == old(ends) && request == old(request))
      ensures issued == old(issued) && server == old(server) && response == old(response)
    {
      ghost var s := Contents();
      if cancelled {
        end := Some(Cancelled(caller.command));
        ends := ends + [end.value];
        caller := Nobody;
        assert Contents() == Next(s, CancelWrite);
      } else if server.Stopping? || server.Stopped? {
        end := Some(ChannelClosed(caller.command));
        ends := ends + [end.value];
        caller := Nobody;
        assert Contents() == Next(s, WriteFails);
      } else {
        end := None;
        if |request| < 1 {
          request := request + [caller.command];
          caller := Reading(caller.command);
          assert Contents() == Next(s, WriteRequest);
        }
      }
    }

    /** One try at reading the response; no token is consulted. None: keep waiting. */
    method TryRead() returns (end: Option<End>)
      requires caller.Reading? && Inv(Contents())
      modifies this
      ensures end.Some? ==> ends == old(ends) + [end.value] && caller.Nobody? && Inv(Contents())
      ensures end.Some? ==>
                end.value in {Returned(old(caller).command, old(caller).command), ChannelClosed(old(caller).command)}
      ensures end == if old(response) != [] then Some(Returned(old(caller).command, old(response)[0]))
                     else if old(server).Stopped? then Some(ChannelClosed(old(caller).command)) else None
      ensures end.None? ==> Contents() == old(Contents()) && Remaining(Contents()) > 0
    {
      ghost var s := Contents();
      WaitingIsServed(s);
      end := None;
      if response != [] {
        StepKeepsInv(s, ReadResponse);
        end := Some(Returned(caller.command, response[0]));
        response := response[1..];
        ends := ends + [end.value];
        caller := Nobody;
        assert Contents() == Next(s, ReadResponse);
        assert ends[|ends| - 1] == end.value;
      } else if server.Stopped? {
        StepKeepsInv(s, ReadFails);
        end := Some(ChannelClosed(caller.command));
        ends := ends + [end.value];
        caller := Nobody;
        assert Contents() == Next(s, ReadFails);
      }
    }

    /** One turn of the connection loop; `connected` is false once the stream to the runner is broken. */
    method Serve(connected: bool) returns (idle: bool)
      modifies this
      ensures idle ==> Contents() == old(Contents())
      ensures !idle ==> exists step :: step in {Take, Answer, Respond, Disconnect, CloseResponses}
                          && Enabled(old(Contents()), step) && Contents() == Next(old(Contents()), step)
      ensures old(server).Stopped? ==> idle
      ensures old(server).Stopping? ==> !idle && server == Stopped && request == old(request) && response == old(response)
      ensures !connected && !(old(server).Stopping? || old(server).Stopped?) ==>
                !idle && server == Stopping && request == old(request) && response == old(response)
      ensures connected && old(server).Listening? ==>
                if old(request) == [] then idle
                else !idle && server == Sent(old(request)[0]) && request == old(request)[1..] && response == old(response)
      ensures connected && old(server).Sent? ==>
                !idle && server == Answering(old(server).command) && request == old(request) && response == old(response)
      ensures connected && old(server).Answering? ==>
                if old(response) != [] then idle
                else !idle && server == Listening && request == old(request) && response == [old(server).response]
      ensures caller == old(caller) && issued == old(issued) && ends == old(ends)
    {
      ghost var s := Contents();
      idle := false;
      if server.Stopped? {
        idle := true;
      } else if server.Stopping? {
        server := Stopped;
        assert Contents() == Next(s, CloseResponses);
      } else if !connected {
        server := Stopping;
        assert Contents() == Next(s, Disconnect);
      } else if server.Listening? && request != [] {
        server, request := Sent(request[0]), request[1..];
        assert Contents() == Next(s, Take);
      } else if server.Sent? {
        server := Answering(server.command);
        assert Contents() == Next(s, Answer);
      } else if server.Answering? && |response| < 1 {
        response, server := response + [server.response], Listening;
        assert Contents() == Next(s, Respond);
      } else {
        idle := true;
      }
    }
  }
}
