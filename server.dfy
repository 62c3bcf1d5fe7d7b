/**
  The server's session coordinator (server/index.js): one process-wide state of
  four variables (the current poll, the closed polls, the roster of connected
  students keyed by socket id, the kick timestamps keyed by name) and the event
  handlers that change it. Handlers run one at a time, as on Node's event loop.
  Time is the parameter `now`; the poll timer's callback is `ClosePoll`, which
  the environment may call whenever it likes. Outgoing messages are appended to
  `outbox`; their delivery is not modelled.
 */
module Server {
  import opened Wrappers
  import opened Dict
  import opened Results
  import opened Protocol

  /** A kicked name may not rejoin for this many milliseconds. */
  const KickCooldownMs: int := 20000

  /** The current poll: the teacher's poll data with an answers object and a start time. */
  datatype Poll = Poll(question: string, options: seq<string>, duration: int,
                       answers: Dict<string>, startTime: int)

  /** What is archived when a poll's timer fires. */
  datatype ClosedPoll = ClosedPoll(question: string, options: seq<string>, answers: Dict<string>)

  /** `io.emit` goes to every connection; `socket.emit` and `io.to(id).emit` to one. */
  datatype Target = Everyone | Only(socket: string)

  datatype Event =
    | StudentList(to: Target, names: seq<string>)
    | PollQuestion(to: Target, poll: Poll)
    | PollResults(to: Target, counts: Dict<nat>)
    | PollAnswersDetailed(to: Target, answers: Dict<string>)
    | PastPolls(to: Target, polls: seq<ClosedPoll>)
    | Kicked(to: Target)
    | Disconnected(socket: string)   // the server closes that socket
    | Acknowledged(socket: string)   // the join's `ack` callback is called

  /** JavaScript truthiness of a stored answer: present and not the empty string. */
  predicate Truthy(a: Option<string>)
  {
    a.Some? && a.value != ""
  }

  /** A join under `name` at `now` is refused: the name was kicked less than 20 seconds ago. */
  predicate CoolingDown(kickedNames: map<string, int>, name: string, now: int)
  {
    name in kickedNames && kickedNames[name] != 0 && now - kickedNames[name] < KickCooldownMs
  }

  /** An accepted joiner is sent the open poll unless they already hold a truthy answer in it. */
  predicate LateJoinerGetsPoll(currentPoll: Option<Poll>, name: string)
  {
    currentPoll.Some? && !Truthy(Get(currentPoll.value.answers, name))
  }

  /** `submit_answer` is dropped when no poll is open or the name already holds a truthy answer. */
  predicate AnswerRejected(currentPoll: Option<Poll>, name: string)
  {
    currentPoll.None? || Truthy(Get(currentPoll.value.answers, name))
  }

  ghost predicate PollValid(currentPoll: Option<Poll>)
  {
    currentPoll.Some? ==> DistinctKeys(currentPoll.value.answers)
  }

  ghost predicate HistoryValid(pastPolls: seq<ClosedPoll>)
  {
    forall i :: 0 <= i < |pastPolls| ==> DistinctKeys(pastPolls[i].answers)
  }

  /** The answers object in which `name` has recorded `answer`. */
  function Record(p: Poll, name: string, answer: string): Poll
  {
    p.(answers := Set(p.answers, name, answer))
  }

  class Session {
    var currentPoll: Option<Poll>
    var pastPolls: seq<ClosedPoll>
    var connectedStudents: Dict<string>
    var kickedNames: map<string, int>
    var outbox: seq<Event>

    /** Every object of the state has distinct keys, as JavaScript objects do. */
    ghost predicate Valid()
      reads this
    {
      DistinctKeys(connectedStudents) && PollValid(currentPoll) && HistoryValid(pastPolls)
    }

    /** The state when the server starts (server/index.js:23-26). */
    constructor ()
      ensures Valid()
      ensures currentPoll == None && pastPolls == [] && connectedStudents == []
      ensures kickedNames == map[] && outbox == []
    {
      currentPoll := None;
      pastPolls := [];
      connectedStudents := [];
      kickedNames := map[];
      outbox := [];
    }

    method BroadcastStudentList()
      modifies this`outbox
      ensures outbox == old(outbox) + [StudentList(Everyone, Values(connectedStudents))]
    {
      outbox := outbox + [StudentList(Everyone, Values(connectedStudents))];
    }

    /**
      `student_joined`: refused with `kicked` and a disconnect while the name's
      cooldown runs; otherwise the socket is bound to the name, the roster is
      broadcast, the ack is called and a late joiner is sent the open poll.
      The kick timestamp is never cleared: the delete guarded by the same
      condition as the refusal cannot run.
     */
    method StudentJoined(socketId: string, name: string, now: int, hasAck: bool)
      requires Valid()
      modifies this
      ensures Valid()
      ensures currentPoll == old(currentPoll) && pastPolls == old(pastPolls)
      ensures kickedNames == old(kickedNames)
      ensures CoolingDown(old(kickedNames), name, now) ==>
        && connectedStudents == old(connectedStudents)
        && outbox == old(outbox) + [Kicked(Only(socketId)), Disconnected(socketId)]
      ensures !CoolingDown(old(kickedNames), name, now) ==>
        && connectedStudents == Set(old(connectedStudents), socketId, name)
        && outbox == old(outbox) + [StudentList(Everyone, Values(connectedStudents))]
                     + (if hasAck then [Acknowledged(socketId)] else [])
                     + (if LateJoinerGetsPoll(currentPoll, name)
                        then [PollQuestion(Only(socketId), currentPoll.value)] else [])
    {
      var kickedAt := if name in kickedNames then Some(kickedNames[name]) else None;
      assert (kickedAt.Some? && kickedAt.value != 0 && now - kickedAt.value < KickCooldownMs)
             == CoolingDown(kickedNames, name, now);
      if kickedAt.Some? && kickedAt.value != 0 && now - kickedAt.value < KickCooldownMs {
        outbox := outbox + [Kicked(Only(socketId)), Disconnected(socketId)];
        return;
      }
      // The delete of the stale timestamp repeats the refusal's condition, so it never fires.
      kickedNames := if kickedAt.Some? && kickedAt.value != 0 && now - kickedAt.value < KickCooldownMs
                     then kickedNames - {name} else kickedNames;
      SetKeepsDistinct(connectedStudents, socketId, name);
      connectedStudents := Set(connectedStudents, socketId, name);
      BroadcastStudentList();
      ghost var listed := outbox;
      if hasAck {
        outbox := outbox + [Acknowledged(socketId)];
      }
      ghost var acked := outbox;
      assert acked == listed + (if hasAck then [Acknowledged(socketId)] else []);
      if currentPoll.Some? && !Truthy(Get(currentPoll.value.answers, name)) {
        outbox := outbox + [PollQuestion(Only(socketId), currentPoll.value)];
      }
      assert outbox == acked + (if LateJoinerGetsPoll(currentPoll, name)
                                then [PollQuestion(Only(socketId), currentPoll.value)] else []);
    }

    /**
      `new_poll`: the current poll is replaced by a fresh one with no answers;
      the one it replaces is not archived. The timer it starts is the
      environment's later call of `ClosePoll`.
     */
    method NewPoll(data: PollData, now: int)
      requires Valid()
      modifies this
      ensures Valid()
      ensures currentPoll == Some(Poll(data.question, data.options, data.duration, [], now))
      ensures pastPolls == old(pastPolls) && connectedStudents == old(connectedStudents)
      ensures kickedNames == old(kickedNames)
      ensures outbox == old(outbox) + [PollQuestion(Everyone, currentPoll.value)]
    {
      currentPoll := Some(Poll(data.question, data.options, data.duration, [], now));
      outbox := outbox + [PollQuestion(Everyone, currentPoll.value)];
    }

    /**
      The timer callback: whatever poll is current when it fires is archived
      with a copy of its answers, its final tally, answers and the history are
      broadcast, and it is cleared. With no current poll it does nothing.
     */
    method ClosePoll()
      requires Valid()
      modifies this
      ensures Valid()
      ensures currentPoll == None
      ensures connectedStudents == old(connectedStudents) && kickedNames == old(kickedNames)
      ensures old(currentPoll).None? ==> pastPolls == old(pastPolls) && outbox == old(outbox)
      ensures old(currentPoll).Some? ==>
        var p := old(currentPoll).value;
        && pastPolls == old(pastPolls) + [ClosedPoll(p.question, p.options, p.answers)]
        && outbox == old(outbox) + [PollResults(Everyone, Tally(p.options, Values(p.answers))),
                                    PollAnswersDetailed(Everyone, p.answers),
                                    PastPolls(Everyone, pastPolls)]
    {
      if currentPoll.Some? {
        var p := currentPoll.value;
        pastPolls := pastPolls + [ClosedPoll(p.question, p.options, p.answers)];
        var counts := CountVotes(p.options, Values(p.answers));
        outbox := outbox + [PollResults(Everyone, counts), PollAnswersDetailed(Everyone, p.answers),
                            PastPolls(Everyone, pastPolls)];
        currentPoll := None;
      }
    }

    /**
      `submit_answer`: the first truthy answer per name wins. A rejected
      submission changes nothing; an accepted one writes `answers[name]` and
      broadcasts the live tally and the answers.
     */
    method SubmitAnswer(name: string, answer: string)
      requires Valid()
      modifies this
      ensures Valid()
      ensures pastPolls == old(pastPolls) && connectedStudents == old(connectedStudents)
      ensures kickedNames == old(kickedNames)
      ensures AnswerRejected(old(currentPoll), name) ==>
        currentPoll == old(currentPoll) && outbox == old(outbox)
      ensures !AnswerRejected(old(currentPoll), name) ==>
        var p := Record(old(currentPoll).value, name, answer);
        && currentPoll == Some(p)
        && outbox == old(outbox) + [PollResults(Everyone, Tally(p.options, Values(p.answers))),
                                    PollAnswersDetailed(Everyone, p.answers)]
    {
      if currentPoll.None? || Truthy(Get(currentPoll.value.answers, name)) {
        return;
      }
      SetKeepsDistinct(currentPoll.value.answers, name, answer);
      var p := Record(currentPoll.value, name, answer);
      currentPoll := Some(p);
      var counts := CountVotes(p.options, Values(p.answers));
      outbox := outbox + [PollResults(Everyone, counts), PollAnswersDetailed(Everyone, p.answers)];
    }

    /** `get_current_poll_state`: the open poll, its tally and its answers, to the asking socket only. */
    method GetCurrentPollState(socketId: string)
      requires Valid()
      modifies this`outbox
      ensures currentPoll.None? ==> outbox == old(outbox)
      ensures currentPoll.Some? ==>
        var p := currentPoll.value;
        outbox == old(outbox) + [PollQuestion(Only(socketId), p),
                                 PollResults(Only(socketId), Tally(p.options, Values(p.answers))),
                                 PollAnswersDetailed(Only(socketId), p.answers)]
    {
      if currentPoll.Some? {
        var p := currentPoll.value;
        var counts := CountVotes(p.options, Values(p.answers));
        outbox := outbox + [PollQuestion(Only(socketId), p), PollResults(Only(socketId), counts),
                            PollAnswersDetailed(Only(socketId), p.answers)];
      }
    }

    /** `get_student_list`: the names of the roster, in insertion order, to the asking socket. */
    method GetStudentList(socketId: string)
      modifies this`outbox
      ensures outbox == old(outbox) + [StudentList(Only(socketId), Values(connectedStudents))]
    {
      outbox := outbox + [StudentList(Only(socketId), Values(connectedStudents))];
    }

    /** `get_past_polls`: the whole history, oldest first, to the asking socket. */
    method GetPastPolls(socketId: string)
      modifies this`outbox
      ensures outbox == old(outbox) + [PastPolls(Only(socketId), pastPolls)]
    {
      outbox := outbox + [PastPolls(Only(socketId), pastPolls)];
    }

    /**
      `kick_student`: the first roster entry, in insertion order, whose name
      matches is sent `kicked` and disconnected, and the name's kick time is
      recorded. The roster itself changes only when that socket's
      `disconnect` arrives. An unknown name changes nothing.
     */
    method KickStudent(nameToKick: string, now: int)
      requires Valid()
      modifies this
      ensures Valid()
      ensures currentPoll == old(currentPoll) && pastPolls == old(pastPolls)
      ensures connectedStudents == old(connectedStudents)
      ensures var i := IndexOfValue(connectedStudents, nameToKick);
        if i < |connectedStudents| then
          var target := connectedStudents[i].key;
          && kickedNames == old(kickedNames)[nameToKick := now]
          && outbox == old(outbox) + [Kicked(Only(target)), Disconnected(target)]
        else
          kickedNames == old(kickedNames) && outbox == old(outbox)
    {
      for i := 0 to |connectedStudents|
        invariant forall j :: 0 <= j < i ==> connectedStudents[j].val != nameToKick
        invariant kickedNames == old(kickedNames) && outbox == old(outbox)
      {
        var (sockId, studentName) := (connectedStudents[i].key, connectedStudents[i].val);
        if studentName == nameToKick {
          kickedNames := kickedNames[nameToKick := now];
          outbox := outbox + [Kicked(Only(sockId)), Disconnected(sockId)];
          return;
        }
      }
    }

    /** `disconnect`: the socket's roster entry, if any, is deleted and the roster broadcast. */
    method Disconnect(socketId: string)
      requires Valid()
      modifies this
      ensures Valid()
      ensures currentPoll == old(currentPoll) && pastPolls == old(pastPolls)
      ensures kickedNames == old(kickedNames)
      ensures connectedStudents == Remove(old(connectedStudents), socketId)
      ensures Get(old(connectedStudents), socketId).Some? ==>
        |connectedStudents| == |old(connectedStudents)| - 1
      ensures Get(old(connectedStudents), socketId).None? ==> connectedStudents == old(connectedStudents)
      ensures outbox == old(outbox) + [StudentList(Everyone, Values(connectedStudents))]
    {
      RemoveKeepsDistinct(connectedStudents, socketId);
      if Get(connectedStudents, socketId).Some? {
        RemovePresentLength(connectedStudents, socketId);
      } else {
        RemoveAbsent(connectedStudents, socketId);
      }
      connectedStudents := Remove(connectedStudents, socketId);
      BroadcastStudentList();
    }
  }
}
