// Kernel memory as its users see it: any request may be refused, and whoever
// blames a failure on memory can show the request that was.
module KernelMemory {

  // What request number n is told; past the end there is memory.
  predicate Granted(answers: seq<bool>, n: nat) {
    n < |answers| ==> answers[n]
  }

  // How many of the first n requests are refused.
  ghost function Refusals(answers: seq<bool>, n: nat): nat {
    if n == 0 then 0 else Refusals(answers, n - 1) + if Granted(answers, n - 1) then 0 else 1
  }

  // The count stays the same exactly if every request in between is granted.
  lemma {:induction false} SameRefusals(answers: seq<bool>, m: nat, n: nat)
    requires m <= n
    ensures Refusals(answers, m) <= Refusals(answers, n)
    ensures Refusals(answers, m) == Refusals(answers, n) <==> forall k: nat :: m <= k < n ==> Granted(answers, k)
    decreases n - m
  {
    if m < n {
      SameRefusals(answers, m, n - 1);
      assert (forall k: nat :: m <= k < n ==> Granted(answers, k)) <==>
             Granted(answers, n - 1) && forall k: nat :: m <= k < n - 1 ==> Granted(answers, k);
    }
  }

  // From request a to request b: at most so many, and exactly so many if none
  // of them was refused.
  predicate Asks(a: nat, b: nat, refused: int, exact: nat, most: nat) {
    a <= b <= a + most && (refused == 0 ==> b == a + exact)
  }

  lemma AsksFurther(a: nat, b: nat, c: nat, refused: int, more: int, exact: nat, total: nat, most: nat, most': nat)
    requires Asks(a, b, refused, exact, most) && 0 <= refused && 0 <= more && b <= c && c - b + most <= most'
    requires refused + more == 0 ==> c - b == total - exact
    ensures Asks(a, c, refused + more, total, most')
  {
  }

  // There is memory for every request.
  ghost predicate Plentiful(answers: seq<bool>) {
    forall k: nat :: Granted(answers, k)
  }

  lemma NoneRefused(answers: seq<bool>, n: nat)
    requires Plentiful(answers)
    ensures Refusals(answers, n) == 0
  {
    SameRefusals(answers, 0, n);
  }

  class Supply {
    const answers: seq<bool>     // what each request is told, in order
    var asked: nat               // how many there have been

    constructor (answers: seq<bool>)
      ensures this.answers == answers && asked == 0 && Failures() == 0
    {
      this.answers, asked := answers, 0;
    }

    // How many of them were refused.
    ghost function Failures(): nat
      reads this`asked
    {
      Refusals(answers, asked)
    }

    method Allocate() returns (ok: bool)
      modifies this
      ensures ok == Granted(answers, old(asked)) && asked == old(asked) + 1
      ensures Failures() == old(Failures()) + if ok then 0 else 1
    {
      ok := Granted(answers, asked);
      asked := asked + 1;
    }
  }
}
