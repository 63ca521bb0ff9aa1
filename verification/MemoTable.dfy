/**
  The memo table of `src/fiboquick.cxx`: a recursion that fills a static table
  in which 0 means "not known yet", although 0 may also be a value because the
  arithmetic wraps.
 */
module MemoTable {

  const WORD: int := 0x1_0000_0000_0000_0000

  function Fib(n: int): nat {
    if n < 2 then 1 else Fib(n - 1) + Fib(n - 2)
  }

  /** The recursion without a table, in 64-bit arithmetic. */
  function PlainFibo(n: int): int {
    if n < 2 then 1 else (PlainFibo(n - 1) + PlainFibo(n - 2)) % WORD
  }

  lemma {:induction false} PlainIsModular(n: int)
    ensures PlainFibo(n) == Fib(n) % WORD
    decreases n
  {
    if n >= 2 {
      PlainIsModular(n - 1);
      PlainIsModular(n - 2);
      SumOfRemainders(Fib(n - 1), Fib(n - 2));
    }
  }

  lemma SumOfRemainders(a: nat, b: nat)
    ensures (a % WORD + b % WORD) % WORD == (a + b) % WORD
  {
  }

  class Fibo {
    const f: array<int>

    /** The static table starts with zeroes. */
    constructor (size: nat)
      ensures Valid() && fresh(f) && f.Length == size
    {
      f := new int[size](_ => 0);
    }

    ghost predicate Valid()
      reads f
    {
      forall i | 0 <= i < f.Length :: f[i] == 0 || f[i] == PlainFibo(i)
    }

    /** Returns what the plain recursion returns, and never forgets an entry. */
    method Get(n: int) returns (r: int)
      requires Valid() && n < f.Length
      modifies f
      ensures Valid() && r == PlainFibo(n)
      ensures forall i | 0 <= i < f.Length :: old(f[i]) != 0 ==> f[i] == old(f[i])
      ensures forall i | 0 <= i < f.Length && n < i :: f[i] == old(f[i])
      decreases n
    {
      if n < 2 {
        return 1;
      }
      if f[n] == 0 {
        if f[n - 1] == 0 {
          var x := Get(n - 1);
          f[n - 1] := x;
        }
        if f[n - 2] == 0 {
          var y := Get(n - 2);
          f[n - 2] := y;
        }
        f[n] := (f[n - 1] + f[n - 2]) % WORD;
      }
      return f[n];
    }

    /** Any sequence of calls. */
    method GetAll(ns: seq<int>) returns (rs: seq<int>)
      requires Valid() && forall n | n in ns :: n < f.Length
      modifies f
      ensures Valid() && |rs| == |ns|
      ensures forall k | 0 <= k < |ns| :: rs[k] == Fib(ns[k]) % WORD
    {
      rs := [];
      for k := 0 to |ns|
        invariant Valid() && |rs| == k
        invariant forall j | 0 <= j < k :: rs[j] == Fib(ns[j]) % WORD
      {
        assert ns[k] in ns;
        var r := Get(ns[k]);
        PlainIsModular(ns[k]);
        rs := rs + [r];
      }
    }
  }
}
