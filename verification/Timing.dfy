/** Time-outs: the modules only ask whether their time is up. */
module Timing {

  /** A clock that only tells whether the time is up; it cannot say no for ever. */
  class Clock {
    var answers: seq<bool>

    constructor (answers: seq<bool>)
      ensures this.answers == answers
    {
      this.answers := answers;
    }

    method Expired() returns (expired: bool)
      modifies this
      ensures expired <==> old(answers) == [] || old(answers)[0]
      ensures answers == if old(answers) == [] then [] else old(answers)[1..]
    {
      expired := answers == [] || answers[0];
      answers := if answers == [] then [] else answers[1..];
    }
  }
}
