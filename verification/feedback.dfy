/** The feedback controller of a bot answer: `handleFeedback` in
    BotResponse.jsx, lines 52-87.

    A click on the up or down control computes a target vote (a second click
    on the current vote clears it), raises the in-flight flag, sends the target
    to the feedback service, commits it only when the service reports success,
    and always lowers the flag again. The service call is not modelled: its
    result is a parameter, `Outcome`. */
module Feedback {
  import opened Optional

  /** The recorded vote: JavaScript `null`, `'UPVOTED'` or `'DOWNVOTED'`. */
  datatype Vote = NoVote | Upvoted | Downvoted

  /** How `AmazonQService.sendFeedback` ends: `{success: true}`,
      `{success: false, error}`, or a thrown exception. */
  datatype Outcome = Success | Failure | Throws

  /** The arguments of one call to the feedback service. */
  datatype Request = Request(vote: Vote, messageId: string, conversationId: string)

  /** The component's two pieces of state, `feedback` and `isSubmitting`. */
  datatype State = State(feedback: Vote, isSubmitting: bool)

  /** The state after one click, and the service call it made, if any. */
  datatype StepResult = StepResult(after: State, call: Option<Request>)

  /** The guard of line 53: a submission in flight, or an empty (falsy)
      message or conversation id, turns the click into a no-op. */
  predicate Blocked(isSubmitting: bool, messageId: string, conversationId: string)
    ensures isSubmitting ==> Blocked(isSubmitting, messageId, conversationId)
    ensures !Blocked(isSubmitting, messageId, conversationId) <==>
              !isSubmitting && |messageId| > 0 && |conversationId| > 0
  {
    isSubmitting || messageId == "" || conversationId == ""
  }

  /** Line 63: clicking the vote already recorded clears it; any other vote is
      sent as it is. */
  function Target(current: Vote, requested: Vote): (t: Vote)
    ensures t == requested || t == NoVote
    ensures t == NoVote <==> requested == current || requested == NoVote
  {
    if current == requested then NoVote else requested
  }

  /** One call of `handleFeedback(requested)`, whose service call ends with
      `outcome`. */
  function Step(s: State, messageId: string, conversationId: string,
                requested: Vote, outcome: Outcome): (r: StepResult)
    // the guard: no call exactly when blocked, and then nothing changes
    ensures r.call.None? <==> Blocked(s.isSubmitting, messageId, conversationId)
    ensures r.call.None? ==> r.after == s
    // the request carries the toggled target and the two ids
    ensures r.call.Some? ==>
              r.call.value == Request(Target(s.feedback, requested), messageId, conversationId)
    // `finally`: a call always ends with the flag lowered
    ensures r.call.Some? ==> !r.after.isSubmitting
    // the vote moves only on a reported success, and then to the target
    ensures r.after.feedback != s.feedback ==> r.call.Some? && outcome == Success
    ensures r.call.Some? && outcome == Success ==> r.after.feedback == r.call.value.vote
  {
    if Blocked(s.isSubmitting, messageId, conversationId) then StepResult(s, None)
    else
      var target := Target(s.feedback, requested);
      var committed := match outcome
        case Success => target
        case Failure => s.feedback
        case Throws => s.feedback;
      StepResult(State(committed, false), Some(Request(target, messageId, conversationId)))
  }

  /** The component instance of one bot answer. The ids are props that stay
      fixed for the instance; `feedback` and `isSubmitting` are its React
      state, here written in place. */
  class FeedbackController {
    const messageId: string
    const conversationId: string
    var feedback: Vote
    var isSubmitting: bool

    /** `useState(null)` and `useState(false)`. */
    constructor (messageId: string, conversationId: string)
      ensures this.messageId == messageId && this.conversationId == conversationId
      ensures feedback == NoVote && !isSubmitting
    {
      this.messageId := messageId;
      this.conversationId := conversationId;
      feedback := NoVote;
      isSubmitting := false;
    }

    function Current(): State
      reads this
    {
      State(feedback, isSubmitting)
    }

    /** `handleFeedback(newFeedback)`. `call` is the request sent to the
        service (`None` when the guard returned early) and `flagDuringCall` is
        `isSubmitting` as it stood while the service call was outstanding. */
    method HandleFeedback(newFeedback: Vote, outcome: Outcome)
        returns (call: Option<Request>, flagDuringCall: bool)
      modifies this
      ensures StepResult(Current(), call) ==
              Step(old(Current()), messageId, conversationId, newFeedback, outcome)
      ensures flagDuringCall <==> call.Some?
    {
      if isSubmitting || messageId == "" || conversationId == "" {
        return None, false;
      }
      var previous := feedback;
      var updatedFeedback := if feedback == newFeedback then NoVote else newFeedback;
      isSubmitting := true;
      call := Some(Request(updatedFeedback, messageId, conversationId));
      flagDuringCall := isSubmitting;
      match outcome {
        case Success =>
          feedback := updatedFeedback;
        case Failure =>
        case Throws =>
          // the catch block writes back the value the handler started from
          feedback := previous;
      }
      // finally
      isSubmitting := false;
    }
  }

  // ---------------------------------------------------------------------------
  // Sequences of clicks
  // ---------------------------------------------------------------------------

  /** One user click and how its service call ends. */
  datatype Click = Click(requested: Vote, outcome: Outcome)

  /** A service call that was made, with how it ended. */
  datatype Sent = Sent(request: Request, outcome: Outcome)

  datatype RunResult = RunResult(after: State, sent: seq<Sent>)

  /** The clicks handled one after the other, each to completion. */
  function Run(s: State, messageId: string, conversationId: string, clicks: seq<Click>): (r: RunResult)
    ensures |r.sent| <= |clicks|
    ensures forall i :: 0 <= i < |r.sent| ==>
              r.sent[i].request.messageId == messageId && r.sent[i].request.conversationId == conversationId
  {
    if clicks == [] then RunResult(s, [])
    else
      var before := Run(s, messageId, conversationId, clicks[..|clicks| - 1]);
      var last := clicks[|clicks| - 1];
      var r := Step(before.after, messageId, conversationId, last.requested, last.outcome);
      match r.call
      case None => RunResult(r.after, before.sent)
      case Some(req) => RunResult(r.after, before.sent + [Sent(req, last.outcome)])
  }

  /** The vote of the last call the service acknowledged, or `initial`. */
  function LastAcknowledged(initial: Vote, sent: seq<Sent>): Vote
  {
    if sent == [] then initial
    else if sent[|sent| - 1].outcome == Success then sent[|sent| - 1].request.vote
    else LastAcknowledged(initial, sent[..|sent| - 1])
  }

  /** The recorded vote is always the one the service last acknowledged: a
      failed or throwing call leaves no trace in it. */
  lemma {:induction false} RunShowsLastAcknowledged(s: State, messageId: string, conversationId: string,
                                                    clicks: seq<Click>)
    ensures Run(s, messageId, conversationId, clicks).after.feedback ==
            LastAcknowledged(s.feedback, Run(s, messageId, conversationId, clicks).sent)
  {
    if clicks != [] {
      RunShowsLastAcknowledged(s, messageId, conversationId, clicks[..|clicks| - 1]);
      var before := Run(s, messageId, conversationId, clicks[..|clicks| - 1]);
      var r := Run(s, messageId, conversationId, clicks);
      if r.sent != before.sent {
        assert r.sent[..|r.sent| - 1] == before.sent;
      }
    }
  }

  /** The in-flight flag ends every run as it began: each handled click lowers
      it in `finally`, and while it is up every click is dropped. */
  lemma {:induction false} RunRestoresFlag(s: State, messageId: string, conversationId: string,
                                           clicks: seq<Click>)
    ensures Run(s, messageId, conversationId, clicks).after.isSubmitting == s.isSubmitting
  {
    if clicks != [] {
      RunRestoresFlag(s, messageId, conversationId, clicks[..|clicks| - 1]);
    }
  }

  /** Blocked clicks are inert: with a submission in flight or an id missing,
      no click reaches the service and the state does not move. */
  lemma {:induction false} BlockedRunIsInert(s: State, messageId: string, conversationId: string,
                                             clicks: seq<Click>)
    requires Blocked(s.isSubmitting, messageId, conversationId)
    ensures Run(s, messageId, conversationId, clicks) == RunResult(s, [])
  {
    if clicks != [] {
      BlockedRunIsInert(s, messageId, conversationId, clicks[..|clicks| - 1]);
    }
  }

  /** Handled one after another, every click reaches the service once, in
      order, with its own outcome, once the ids are present and nothing is in
      flight. The request of the i-th click carries the vote toggled against
      the vote recorded after the clicks before it, and the two ids. */
  lemma {:induction false} EveryClickIsSent(s: State, messageId: string, conversationId: string,
                                            clicks: seq<Click>)
    requires !Blocked(s.isSubmitting, messageId, conversationId)
    ensures |Run(s, messageId, conversationId, clicks).sent| == |clicks|
    ensures forall i :: 0 <= i < |clicks| ==>
              Run(s, messageId, conversationId, clicks).sent[i] ==
                Sent(Request(Target(Run(s, messageId, conversationId, clicks[..i]).after.feedback,
                                    clicks[i].requested),
                             messageId, conversationId),
                     clicks[i].outcome)
  {
    if clicks != [] {
      var n := |clicks| - 1;
      var p := clicks[..n];
      EveryClickIsSent(s, messageId, conversationId, p);
      RunRestoresFlag(s, messageId, conversationId, p);
      var before := Run(s, messageId, conversationId, p);
      var r := Run(s, messageId, conversationId, clicks);
      assert r.sent == before.sent + [r.sent[n]];
      forall i | 0 <= i < |clicks|
        ensures r.sent[i] ==
                Sent(Request(Target(Run(s, messageId, conversationId, clicks[..i]).after.feedback,
                                    clicks[i].requested),
                             messageId, conversationId),
                     clicks[i].outcome)
      {
        if i < n {
          assert clicks[..i] == p[..i] && clicks[i] == p[i];
        } else {
          assert clicks[..i] == p;
        }
      }
    }
  }

  /** Two acknowledged clicks on the same vote, from no vote, end at no vote. */
  lemma SameVoteTwiceClears(v: Vote, messageId: string, conversationId: string)
    requires messageId != "" && conversationId != ""
    ensures Run(State(NoVote, false), messageId, conversationId,
                [Click(v, Success), Click(v, Success)]).after == State(NoVote, false)
  {
    var s0 := State(NoVote, false);
    var clicks := [Click(v, Success), Click(v, Success)];
    assert clicks[..1] == [Click(v, Success)] && clicks[..1][..0] == [];
    assert Run(s0, messageId, conversationId, []).after == s0;
    assert Run(s0, messageId, conversationId, clicks[..1]).after == State(Target(NoVote, v), false);
  }

  /** An acknowledged up-vote followed by an acknowledged down-vote ends
      down-voted: a different vote overwrites, it does not clear. */
  lemma UpThenDownEndsDown(messageId: string, conversationId: string)
    requires messageId != "" && conversationId != ""
    ensures Run(State(NoVote, false), messageId, conversationId,
                [Click(Upvoted, Success), Click(Downvoted, Success)]).after == State(Downvoted, false)
  {
    var s0 := State(NoVote, false);
    var clicks := [Click(Upvoted, Success), Click(Downvoted, Success)];
    assert clicks[..1] == [Click(Upvoted, Success)] && clicks[..1][..0] == [];
    assert Run(s0, messageId, conversationId, []).after == s0;
    assert Run(s0, messageId, conversationId, clicks[..1]).after == State(Upvoted, false);
  }

  /** A repeated click toggles: from the vote itself back to no vote, from
      anything else to the vote. */
  lemma ToggleTwice(current: Vote, v: Vote)
    requires v != NoVote
    ensures Target(Target(current, v), v) == if current == v then v else NoVote
  {
  }

  /** A failed or throwing change leaves the recorded vote where it was. */
  lemma FailedChangeRollsBack(s: State, messageId: string, conversationId: string,
                              requested: Vote, outcome: Outcome)
    requires outcome != Success
    ensures Step(s, messageId, conversationId, requested, outcome).after.feedback == s.feedback
  {
  }
}
