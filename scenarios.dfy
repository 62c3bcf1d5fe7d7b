/**
  Whole sessions driven through the handlers of `Server.Session`, as the
  server sees them: each method builds a fresh session, plays a sequence of
  client events and timer firings, and states what the session then holds.
 */
module Scenarios {
  import opened Wrappers
  import opened Dict
  import opened Results
  import opened Protocol
  import opened Server

  /**
    A student is kicked, their socket disconnects, and they try to rejoin under
    the same name `delay` milliseconds after the kick: refused while the
    cooldown runs, accepted from 20000 ms on.
   */
  method KickThenRejoin(name: string, first: string, second: string,
                        joinedAt: int, kickedAt: int, delay: int)
    returns (notice: Event, listedAfterKick: bool, rejoined: bool)
    requires kickedAt != 0
    ensures notice == Kicked(Only(first))
    ensures !listedAfterKick
    ensures rejoined <==> delay >= KickCooldownMs
  {
    var s := new Session();
    s.StudentJoined(first, name, joinedAt, false);
    assert s.connectedStudents == [Entry(first, name)];
    s.KickStudent(name, kickedAt);
    notice := s.outbox[1];
    assert Get(s.connectedStudents, first).Some?;
    s.Disconnect(first);
    assert |s.connectedStudents| == 0;
    listedAfterKick := name in Values(s.connectedStudents);
    s.StudentJoined(second, name, kickedAt + delay, false);
    rejoined := Get(s.connectedStudents, second).Some?;
  }

  /**
    Two students answer a two-option poll, the first of them answers again and
    is ignored, then the timer fires: the history holds the poll with both
    first answers and the final tally counts one vote per option.
   */
  method ColorPoll(startedAt: int) returns (history: seq<ClosedPoll>, finalCounts: Dict<nat>)
    ensures history == [ClosedPoll("Color?", ["Red", "Blue"], [Entry("Alice", "Red"), Entry("Bob", "Blue")])]
    ensures finalCounts == [Entry("Red", 1), Entry("Blue", 1)]
  {
    var s := new Session();
    s.NewPoll(PollData("Color?", ["Red", "Blue"], 1), startedAt);
    ColorAnswers();
    s.SubmitAnswer("Alice", "Red");
    s.SubmitAnswer("Bob", "Blue");
    s.SubmitAnswer("Alice", "Blue");
    ghost var answers := [Entry("Alice", "Red"), Entry("Bob", "Blue")];
    assert s.currentPoll == Some(Poll("Color?", ["Red", "Blue"], 1, answers, startedAt));
    s.ClosePoll();
    assert s.pastPolls == [ClosedPoll("Color?", ["Red", "Blue"], answers)];
    history := s.pastPolls;
    finalCounts := s.outbox[|s.outbox| - 3].counts;
    ColorTally();
  }

  /** How the answers object of `ColorPoll` grows, and what it finally holds. */
  lemma ColorAnswers()
    ensures var none: Dict<string> := [];
      && Get(none, "Alice").None?
      && Set(none, "Alice", "Red") == [Entry("Alice", "Red")]
      && Get([Entry("Alice", "Red")], "Bob").None?
      && Set([Entry("Alice", "Red")], "Bob", "Blue") == [Entry("Alice", "Red"), Entry("Bob", "Blue")]
      && Get([Entry("Alice", "Red"), Entry("Bob", "Blue")], "Alice") == Some("Red")
      && Values([Entry("Alice", "Red"), Entry("Bob", "Blue")]) == ["Red", "Blue"]
  {
    assert "Alice"[0] != "Bob"[0];
    var two := [Entry("Alice", "Red"), Entry("Bob", "Blue")];
    assert IndexOf(two, "Alice") == 0;
    assert Values(two)[0] == "Red" && Values(two)[1] == "Blue";
  }

  lemma ColorTally()
    ensures Tally(["Red", "Blue"], ["Red", "Blue"]) == [Entry("Red", 1), Entry("Blue", 1)]
  {
    assert "Red"[0] != "Blue"[0];
    assert ["Red", "Blue"][..1] == ["Red"];
    assert ["Red"][..0] == [];
    assert Dedup(["Red", "Blue"]) == ["Red", "Blue"];
    assert Count(["Red", "Blue"], "Red") == 1;
    assert Count(["Red", "Blue"], "Blue") == 1;
  }

  /**
    A second poll is opened before the first one's timer fires, and the first
    poll's answers are discarded. The timer that fires next closes whatever
    poll is current. When the first poll's timer is due first (with equal
    durations, say), it closes the second poll early with no answers, and the
    second timer then finds no poll. When the second poll's own timer is due
    first, the two calls of `ClosePoll` are the same, in the other order.
   */
  method OverwrittenPoll(first: PollData, second: PollData, name: string, answer: string,
                         firstAt: int, secondAt: int)
    returns (history: seq<ClosedPoll>, stillOpen: bool)
    ensures history == [ClosedPoll(second.question, second.options, [])]
    ensures !stillOpen
  {
    var s := new Session();
    s.NewPoll(first, firstAt);
    s.SubmitAnswer(name, answer);
    s.NewPoll(second, secondAt);
    s.ClosePoll();  // the first poll's timer
    s.ClosePoll();  // the second poll's timer
    history := s.pastPolls;
    stillOpen := s.currentPoll.Some?;
  }

  /**
    While a poll is open, a student who already answered reconnects on a new
    socket and is not sent the question again; a student who has not answered
    joins and is sent it.
   */
  method LateJoiners(data: PollData, at: int, answer: string) returns (resentToAnswered: bool, sentToNewcomer: bool)
    requires answer != ""
    ensures !resentToAnswered
    ensures sentToNewcomer
  {
    var s := new Session();
    s.StudentJoined("s1", "Alice", at, false);
    s.NewPoll(data, at);
    s.SubmitAnswer("Alice", answer);
    assert s.connectedStudents == [Entry("s1", "Alice")];
    s.Disconnect("s1");
    s.StudentJoined("s2", "Alice", at, false);
    resentToAnswered := s.outbox[|s.outbox| - 1].PollQuestion?;
    s.StudentJoined("s3", "Bob", at, false);
    sentToNewcomer := s.outbox[|s.outbox| - 1] == PollQuestion(Only("s3"), s.currentPoll.value);
  }
}
