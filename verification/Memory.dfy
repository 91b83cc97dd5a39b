/** The allocator that the JSON engine is given: any sequence of answers, one to each request. */
module Memory {

  class Allocator {
    /** Whether request k is granted. */
    const answers: nat -> bool
    var asked: nat

    constructor (answers: nat -> bool)
      ensures this.answers == answers && asked == 0
    {
      this.answers := answers;
      asked := 0;
    }

    /** How many of the first n requests are refused. */
    ghost function Refusals(n: nat): nat {
      if n == 0 then 0 else Refusals(n - 1) + if answers(n - 1) then 0 else 1
    }

    /** How many requests have been refused so far. */
    ghost function Refused(): nat
      reads this
    {
      Refusals(asked)
    }

    method Ask() returns (granted: bool)
      modifies this
      ensures asked == old(asked) + 1 && granted == answers(old(asked))
      ensures Refused() == old(Refused()) + if granted then 0 else 1
    {
      granted := answers(asked);
      asked := asked + 1;
    }
  }
}
