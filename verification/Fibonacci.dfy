/** The execute callback of the Fibonacci action server example, in int32 arithmetic. */
module Fibonacci {
  import opened ActionProtocol

  const INT32_MAX: int := 0x7FFF_FFFF

  function Fib(n: nat): nat { if n < 2 then n else Fib(n - 2) + Fib(n - 1) }

  /** The first n Fibonacci numbers. */
  function FirstFibs(n: nat): (s: seq<int>)
    ensures |s| == n
  {
    if n == 0 then [] else FirstFibs(n - 1) + [Fib(n - 1)]
  }

  lemma {:induction false} FirstFibsAt(n: nat, i: nat)
    requires i < n
    ensures FirstFibs(n)[i] == Fib(i)
  {
    if i < n - 1 {
      FirstFibsAt(n - 1, i);
    }
  }

  /** Fib(47) is the first Fibonacci number that int32_t cannot hold. */
  lemma FibValues()
    ensures Fib(46) == 1836311903 && Fib(47) == 2971215073
  {
    assert Fib(2) == 1 && Fib(3) == 2;
    assert Fib(4) == 3 && Fib(5) == 5;
    assert Fib(6) == 8 && Fib(7) == 13;
    assert Fib(8) == 21 && Fib(9) == 34;
    assert Fib(10) == 55 && Fib(11) == 89;
    assert Fib(12) == 144 && Fib(13) == 233;
    assert Fib(14) == 377 && Fib(15) == 610;
    assert Fib(16) == 987 && Fib(17) == 1597;
    assert Fib(18) == 2584 && Fib(19) == 4181;
    assert Fib(20) == 6765 && Fib(21) == 10946;
    assert Fib(22) == 17711 && Fib(23) == 28657;
    assert Fib(24) == 46368 && Fib(25) == 75025;
    assert Fib(26) == 121393 && Fib(27) == 196418;
    assert Fib(28) == 317811 && Fib(29) == 514229;
    assert Fib(30) == 832040 && Fib(31) == 1346269;
    assert Fib(32) == 2178309 && Fib(33) == 3524578;
    assert Fib(34) == 5702887 && Fib(35) == 9227465;
    assert Fib(36) == 14930352 && Fib(37) == 24157817;
    assert Fib(38) == 39088169 && Fib(39) == 63245986;
    assert Fib(40) == 102334155 && Fib(41) == 165580141;
    assert Fib(42) == 267914296 && Fib(43) == 433494437;
    assert Fib(44) == 701408733 && Fib(45) == 1134903170;
    assert Fib(46) == 1836311903 && Fib(47) == 2971215073;
  }

  lemma {:induction false} FibMonotone(m: nat, n: nat)
    requires m <= n
    ensures Fib(m) <= Fib(n)
    decreases n - m
  {
    if m < n {
      FibMonotone(m + 1, n);
      assert m >= 1 ==> Fib(m + 1) == Fib(m - 1) + Fib(m);
    }
  }

  /** The addition at index i overflows exactly at the 47th term. */
  lemma SumFits(i: nat)
    requires 2 <= i <= 47
    ensures Fib(i) == Fib(i - 1) + Fib(i - 2)
    ensures Fib(i) > INT32_MAX <==> i == 47
  {
    FibValues();
    if i < 47 {
      FibMonotone(i, 46);
    }
  }

  lemma FirstFibsNext(n: nat)
    ensures FirstFibs(n + 1) == FirstFibs(n) + [Fib(n)]
  {
  }

  lemma FirstTwo()
    ensures FirstFibs(2) == [0, 1]
  {
    assert FirstFibs(0) == [] && FirstFibs(1) == [Fib(0)] && FirstFibs(2) == FirstFibs(1) + [Fib(1)];
  }

  /** The loop index at which a cancel is first seen, or one past the last index. */
  function FirstCancel(canceling: nat -> bool, i: nat, order: nat): (c: nat)
    requires i <= order + 1
    ensures i <= c <= order + 1 && (c <= order ==> canceling(c)) && forall j :: i <= j < c ==> !canceling(j)
    decreases order + 1 - i
  {
    if i == order + 1 || canceling(i) then i else FirstCancel(canceling, i + 1, order)
  }

  /** The feedbacks published before index c. */
  function Feedbacks(c: nat): seq<seq<int>> {
    if c <= 2 then [] else Feedbacks(c - 1) + [FirstFibs(c)]
  }

  /** The k-th feedback already holds the term that its iteration added. */
  lemma {:induction false} FeedbackAt(c: nat, k: nat)
    requires k + 2 < c
    ensures |Feedbacks(c)| == c - 2 && Feedbacks(c)[k] == FirstFibs(k + 3)
  {
    FeedbackCount(c - 1);
    if k < c - 3 {
      FeedbackAt(c - 1, k);
    }
  }

  lemma {:induction false} FeedbackCount(c: nat)
    ensures |Feedbacks(c)| == if c <= 2 then 0 else c - 2
  {
    if c > 2 {
      FeedbackCount(c - 1);
    }
  }

  /** Zero, one, and then sums of the two terms before. */
  predicate Grown(s: seq<int>) {
    |s| >= 2 && s[0] == 0 && s[1] == 1 && forall i :: 2 <= i < |s| ==> s[i] == s[i - 1] + s[i - 2]
  }

  lemma FirstFibsGrown(n: nat)
    requires n >= 2
    ensures Grown(FirstFibs(n))
  {
    forall i | 0 <= i < n ensures FirstFibs(n)[i] == Fib(i) {
      FirstFibsAt(n, i);
    }
  }

  /** One feedback per term added, the k-th with k + 3 terms. */
  predicate Published(feedback: seq<seq<int>>, c: nat) {
    |feedback| == c - 2 && forall k | 0 <= k < |feedback| :: Grown(feedback[k]) && |feedback[k]| == k + 3
  }

  /** Everything published and returned, term by term. */
  lemma TermByTerm(c: nat)
    requires c >= 2
    ensures Grown(FirstFibs(c)) && |FirstFibs(c)| == c && Published(Feedbacks(c), c)
  {
    FirstFibsGrown(c);
    FeedbackCount(c);
    forall k | 0 <= k < c - 2 ensures Grown(Feedbacks(c)[k]) && |Feedbacks(c)[k]| == k + 3 {
      FeedbackAt(c, k);
      FirstFibsGrown(k + 3);
    }
  }

  /** Overflow stands for the undefined behaviour of a signed addition. */
  datatype Execution = Overflow | Finished(status: GoalStatus, sequence: seq<int>)

  /** execute: feedback after every term is the Fibonacci prefix one longer than the
      last; a cancelled result is a prefix of the full sequence; success returns
      exactly order + 1 terms; and an addition overflows if and only if the 47th term
      is reached. */
  method Execute(order: int, canceling: nat -> bool) returns (r: Execution, feedback: seq<seq<int>>)
    requires -INT32_MAX - 1 <= order <= INT32_MAX
    ensures order < 1 ==> r == Finished(Rejected, []) && feedback == []
    ensures order >= 1 ==>
              var c := FirstCancel(canceling, 2, order);
              && (r == Overflow <==> c > 47)
              && (c <= 47 ==>
                    && r == Finished(if c <= order then Canceled else Succeeded, FirstFibs(c))
                    && feedback == Feedbacks(c)
                    && |r.sequence| == c && Grown(r.sequence) && Published(feedback, c))
  {
    if order < 1 {
      return Finished(Rejected, []), [];
    }
    ghost var c := FirstCancel(canceling, 2, order);
    var s: seq<int> := [0, 1];
    FirstTwo();
    hide Fib, FirstFibs, Grown, Published;
    feedback := [];
    var i: nat := 2;
    while i <= order
      invariant 2 <= i <= order + 1 && i <= c && i <= 47
      invariant s == FirstFibs(i) && feedback == Feedbacks(i) && c == FirstCancel(canceling, i, order)
    {
      if canceling(i) {
        TermByTerm(i);
        return Finished(Canceled, s), feedback;
      }
      FirstFibsAt(i, i - 1);
      FirstFibsAt(i, i - 2);
      var sum := s[i - 1] + s[i - 2];
      SumFits(i);
      FirstFibsNext(i);
      if sum > INT32_MAX {
        return Overflow, feedback;
      }
      s := s + [sum];
      feedback := feedback + [s];
      i := i + 1;
    }
    TermByTerm(i);
    r := Finished(Succeeded, s);
  }

  /** Every term of a result that Execute can finish with is an int32_t. */
  lemma InRange(n: nat)
    requires n <= 47
    ensures forall x | x in FirstFibs(n) :: 0 <= x <= INT32_MAX
  {
    FibValues();
    forall x | x in FirstFibs(n) ensures 0 <= x <= INT32_MAX {
      var i: nat :| i < n && FirstFibs(n)[i] == x;
      FirstFibsAt(n, i);
      FibMonotone(i, 46);
    }
  }
}
