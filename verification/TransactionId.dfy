/** The two transaction-id generators. */
module TransactionId {

  /** The n-th id handed out, counting from one. */
  function NthId(n: nat): (id: nat)
    requires n >= 1
    ensures 1 <= id <= 0xFFFF
  {
    (n - 1) % 65535 + 1
  }

  /** The wrapping counter: modulo 65536, with zero skipped. */
  function NextId(counter: int): (id: int)
    requires 0 <= counter
    ensures 1 <= id <= 0xFFFF
  {
    var n := (counter + 1) % 0x1_0000;
    if n == 0 then 1 else n
  }

  /** The ids count up from one; any 65535 consecutive ids are distinct, and the sequence repeats after that. */
  lemma ConsecutiveIdsDistinct(m: nat, n: nat)
    requires 1 <= m < n
    ensures n <= 65535 ==> NthId(m) == m && NthId(n) == n
    ensures n - m < 65535 ==> NthId(m) != NthId(n)
    ensures n - m == 65535 ==> NthId(m) == NthId(n)
  {
    var qm, qn := (m - 1) / 65535, (n - 1) / 65535;
    assert m - 1 == 65535 * qm + (m - 1) % 65535 && n - 1 == 65535 * qn + (n - 1) % 65535;
  }

  /** The TCP backend's counter wraps at 65536 and skips zero. */
  class BackendIds {
    var counter: nat
    ghost var issued: nat

    ghost predicate Valid()
      reads this
    {
      counter == if issued == 0 then 0 else NthId(issued)
    }

    constructor ()
      ensures Valid() && issued == 0
    {
      counter, issued := 0, 0;
    }

    method Next() returns (id: nat)
      requires Valid()
      modifies this
      ensures Valid() && issued == old(issued) + 1 && id == NthId(issued)
      ensures counter == NextId(old(counter))
    {
      counter := (counter + 1) % 0x1_0000;
      if counter == 0 {
        counter := 1;
      }
      issued := issued + 1;
      id := counter;
    }
  }

  /** Values taken from an unbounded counter to hand out `n` non-zero low halves. */
  function Consumed(n: nat): nat {
    if n == 0 then 0 else n + (n - 1) / 65535
  }

  /** The counter's value once `n` ids are out, with n = 65535 * rounds + rest. */
  lemma ConsumedAt(rounds: nat, rest: nat)
    requires rest < 65535
    ensures var n := 65535 * rounds + rest;
            Consumed(n) + 1 == 65536 * rounds + (if rest == 0 && rounds > 0 then 0 else rest + 1)
  {
    var n := 65535 * rounds + rest;
    if rest > 0 {
      assert n - 1 == 65535 * rounds + (rest - 1);
    } else if rounds > 0 {
      assert n - 1 == 65535 * (rounds - 1) + 65534;
    }
  }

  lemma NthIdAt(rounds: nat, rest: nat)
    requires rest < 65535
    ensures NthId(65535 * rounds + rest + 1) == rest + 1
  {
  }

  /** From one id to the next: the counter's low half, or the one after it when that is zero. */
  lemma NextClientId(n: nat)
    ensures var v := Consumed(n) + 1;
            if v % 0x1_0000 == 0
            then (v + 1) % 0x1_0000 == NthId(n + 1) && v + 2 == Consumed(n + 1) + 1
            else v % 0x1_0000 == NthId(n + 1) && v + 1 == Consumed(n + 1) + 1
  {
    var rounds, rest := n / 65535, n % 65535;
    assert n == 65535 * rounds + rest;
    ConsumedAt(rounds, rest);
    NthIdAt(rounds, rest);
    if rest + 1 < 65535 {
      ConsumedAt(rounds, rest + 1);
    } else {
      ConsumedAt(rounds + 1, 0);
    }
  }

  /** The client's counter never wraps; its low 16 bits are used and zero is skipped. */
  class ClientIds {
    var next: nat
    ghost var issued: nat

    ghost predicate Valid()
      reads this
    {
      next == Consumed(issued) + 1
    }

    constructor ()
      ensures Valid() && issued == 0
    {
      next, issued := 1, 0;
    }

    method Next() returns (id: nat)
      requires Valid()
      modifies this
      ensures Valid() && issued == old(issued) + 1 && id == NthId(issued)
    {
      NextClientId(issued);
      id, next := next % 0x1_0000, next + 1;
      if id == 0 {
        id, next := next % 0x1_0000, next + 1;
      }
      issued := issued + 1;
    }
  }
}
