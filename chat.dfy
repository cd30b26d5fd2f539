/**
  The conversation log kept in the session: a list of role/content records that each
  submitted question extends, by the question and, when generation succeeds, the answer.
 */
module Chat {
  import opened Wrappers
  import opened Prompt
  import opened Errors

  datatype Role = User | Assistant

  datatype Message = Message(role: Role, content: string)

  /** What the generation call came to: the response text, or the error it raised. */
  datatype Outcome = Generated(text: string) | Failed(error: string)

  /** The log after one submitted question: the user's message, then the answer on success. */
  function AfterTurn(log: seq<Message>, question: string, outcome: Outcome): (r: seq<Message>)
    ensures |r| == |log| + (if outcome.Generated? then 2 else 1)
    ensures r[..|log|] == log
    ensures r[|log|] == Message(User, question)
    ensures outcome.Generated? ==> r[|log| + 1] == Message(Assistant, outcome.text)
  {
    var withQuestion := log + [Message(User, question)];
    match outcome
    case Generated(text) => withQuestion + [Message(Assistant, text)]
    case Failed(_) => withQuestion
  }

  /** Every assistant message answers the user message just before it. */
  ghost predicate Alternating(log: seq<Message>) {
    forall i :: 0 <= i < |log| && log[i].role == Assistant ==> 0 < i && log[i - 1].role == User
  }

  lemma AfterTurnAlternating(log: seq<Message>, question: string, outcome: Outcome)
    requires Alternating(log)
    ensures Alternating(AfterTurn(log, question, outcome))
  {
    var r := AfterTurn(log, question, outcome);
    forall i | 0 <= i < |r| && r[i].role == Assistant
      ensures 0 < i && r[i - 1].role == User
    {
      if i < |log| {
        assert r[i] == r[..|log|][i] == log[i];
        assert r[i - 1] == r[..|log|][i - 1] == log[i - 1];
      }
    }
  }

  /** The number of messages with the given role. */
  function CountRole(log: seq<Message>, role: Role): (n: nat) {
    if log == [] then 0 else CountRole(log[..|log| - 1], role) + (if log[|log| - 1].role == role then 1 else 0)
  }

  lemma {:induction false} CountRoleAppend(a: seq<Message>, b: seq<Message>, role: Role)
    ensures CountRole(a + b, role) == CountRole(a, role) + CountRole(b, role)
    decreases |b|
  {
    if b == [] {
      assert a + b == a;
    } else {
      assert (a + b)[..|a + b| - 1] == a + b[..|b| - 1];
      CountRoleAppend(a, b[..|b| - 1], role);
    }
  }

  /** One turn adds exactly one user message, and one assistant message only on success. */
  lemma AfterTurnCounts(log: seq<Message>, question: string, outcome: Outcome)
    ensures CountRole(AfterTurn(log, question, outcome), User) == CountRole(log, User) + 1
    ensures CountRole(AfterTurn(log, question, outcome), Assistant)
         == CountRole(log, Assistant) + (if outcome.Generated? then 1 else 0)
  {
    var r := AfterTurn(log, question, outcome);
    var added := r[|log|..];
    assert r == log + added;
    CountRoleAppend(log, added, User);
    CountRoleAppend(log, added, Assistant);
    if outcome.Generated? {
      assert added == [Message(User, question)] + [Message(Assistant, outcome.text)];
      CountRoleAppend([Message(User, question)], [Message(Assistant, outcome.text)], User);
      CountRoleAppend([Message(User, question)], [Message(Assistant, outcome.text)], Assistant);
    } else {
      assert added == [Message(User, question)];
    }
  }

  /** The log a session holds after a sequence of submitted questions and their outcomes. */
  function Replay(turns: seq<(string, Outcome)>): (log: seq<Message>) {
    if turns == [] then []
    else AfterTurn(Replay(turns[..|turns| - 1]), turns[|turns| - 1].0, turns[|turns| - 1].1)
  }

  /** The number of turns whose generation succeeded. */
  function Successes(turns: seq<(string, Outcome)>): (n: nat) {
    if turns == [] then 0
    else Successes(turns[..|turns| - 1]) + (if turns[|turns| - 1].1.Generated? then 1 else 0)
  }

  /**
    From an empty log, every turn leaves one user message and every successful turn one
    assistant message, each right after a user message; a failure adds no answer.
   */
  lemma {:induction false} ReplayShape(turns: seq<(string, Outcome)>)
    ensures CountRole(Replay(turns), User) == |turns|
    ensures CountRole(Replay(turns), Assistant) == Successes(turns)
    ensures Alternating(Replay(turns))
  {
    if turns != [] {
      var last := turns[|turns| - 1];
      ReplayShape(turns[..|turns| - 1]);
      AfterTurnCounts(Replay(turns[..|turns| - 1]), last.0, last.1);
      AfterTurnAlternating(Replay(turns[..|turns| - 1]), last.0, last.1);
    }
  }

  /** Turn `k`'s question sits in `log` at index `k` plus the number of earlier successes,
      and, when the turn succeeded, its answer directly after it. */
  ghost predicate TurnPlaced(log: seq<Message>, turns: seq<(string, Outcome)>, k: int)
    requires 0 <= k < |turns|
  {
    var i := k + Successes(turns[..k]);
    i < |log| && log[i] == Message(User, turns[k].0)
    && (turns[k].1.Generated? ==> i + 1 < |log| && log[i + 1] == Message(Assistant, turns[k].1.text))
  }

  /** The replayed log holds every turn at its place: its question, then its answer on success. */
  lemma {:induction false} ReplayPositions(turns: seq<(string, Outcome)>)
    ensures |Replay(turns)| == |turns| + Successes(turns)
    ensures forall k :: 0 <= k < |turns| ==> TurnPlaced(Replay(turns), turns, k)
  {
    if turns != [] {
      var init := turns[..|turns| - 1];
      ReplayPositions(init);
      forall k | 0 <= k < |turns|
        ensures TurnPlaced(Replay(turns), turns, k)
      {
        if k == |turns| - 1 {
          PlacedLast(turns);
        } else {
          PlacedEarlier(turns, k);
        }
      }
    }
  }

  /** The last turn lands right after the log the earlier turns left. */
  lemma {:induction false} PlacedLast(turns: seq<(string, Outcome)>)
    requires turns != []
    requires |Replay(turns[..|turns| - 1])| == |turns| - 1 + Successes(turns[..|turns| - 1])
    ensures TurnPlaced(Replay(turns), turns, |turns| - 1)
  {
    var k := |turns| - 1;
    assert turns[..k] == turns[..|turns| - 1];
  }

  /** An earlier turn keeps its place, since a turn only appends to the log. */
  lemma {:induction false} PlacedEarlier(turns: seq<(string, Outcome)>, k: int)
    requires 0 <= k < |turns| - 1
    requires TurnPlaced(Replay(turns[..|turns| - 1]), turns[..|turns| - 1], k)
    ensures TurnPlaced(Replay(turns), turns, k)
  {
    var init := turns[..|turns| - 1];
    var log := Replay(init);
    assert Replay(turns)[..|log|] == log;
    assert turns[..k] == init[..k];
    assert turns[k] == init[k];
  }

  /** `st.session_state.messages` with the handling of one chat input. */
  class Conversation {
    var messages: seq<Message>

    ghost predicate Valid()
      reads this
    {
      Alternating(messages)
    }

    /** `st.session_state.messages = []` when the session has no log yet. */
    constructor ()
      ensures Valid() && messages == []
    {
      messages := [];
    }

    /**
      One chat input. An empty input does nothing. Otherwise the question is logged, the
      query built from the knowledge base goes to `generate`, and either the answer is
      logged or the failure is classified and its banner returned; earlier messages stay.
     */
    method HandleTurn(question: string, knowledgeBase: string, generate: string -> Outcome)
      returns (sent: Option<string>, banner: Option<string>)
      requires Valid()
      modifies this
      ensures Valid()
      ensures question == "" ==> messages == old(messages) && sent.None? && banner.None?
      ensures question != "" ==> sent == Some(QueryFor(knowledgeBase, question))
      ensures question != "" ==> messages == AfterTurn(old(messages), question, generate(sent.value))
      ensures banner.Some? <==> sent.Some? && generate(sent.value).Failed?
      ensures banner.Some? ==> banner.value == Banner(Classify(generate(sent.value).error))
    {
      sent, banner := None, None;
      if question != "" {
        messages := messages + [Message(User, question)];
        var query := QueryFor(knowledgeBase, question);
        sent := Some(query);
        var outcome := generate(query);
        match outcome {
          case Generated(text) =>
            messages := messages + [Message(Assistant, text)];
          case Failed(error) =>
            banner := Some(Banner(Classify(error)));
        }
        AfterTurnAlternating(old(messages), question, outcome);
      }
    }
  }
}
