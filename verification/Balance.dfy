/** Round-robin balancing: clones share one wrapping ticket counter. */
module Balance {
  import opened Wire

  class BalancedChannel {
    const endpoints: nat
    var next: nat

    ghost predicate Valid()
      reads this
    {
      endpoints > 0 && next < USIZE_LIMIT
    }

    constructor (endpoints: nat)
      requires endpoints > 0
      ensures Valid() && next == 0 && this.endpoints == endpoints
    {
      this.endpoints := endpoints;
      next := 0;
    }

    /** Takes one ticket; the counter wraps around at the end of its range. */
    method Call() returns (chosen: nat)
      requires Valid()
      modifies this
      ensures Valid() && chosen == EndpointOf(old(next), endpoints) && next == Ticket(old(next), 1)
    {
      chosen := next % endpoints;
      next := if next + 1 == USIZE_LIMIT then 0 else next + 1;
    }
  }

  /** The counter after `k` more tickets. */
  function Ticket(start: nat, k: nat): nat {
    (start + k) % USIZE_LIMIT
  }

  function EndpointOf(ticket: nat, n: nat): nat
    requires n > 0
  {
    ticket % n
  }

  /** How many of the `k` tickets from `start` on go to endpoint `e`, whoever draws them. */
  function Count(start: nat, n: nat, k: nat, e: nat): nat
    requires n > 0
  {
    if k == 0 then 0
    else Count(start, n, k - 1, e) + if EndpointOf(Ticket(start, k - 1), n) == e then 1 else 0
  }

  lemma MultipleIsFar(d: int, n: int)
    requires n > 0
    ensures (d >= 1 ==> d * n >= n) && (d <= -1 ==> d * n <= -n)
  {
  }

  lemma Remainder(t: int, q: int, n: int, r: int)
    requires t == q * n + r && 0 <= r < n
    ensures t % n == r && t / n == q
  {
    var d := t / n - q;
    MultipleIsFar(d, n);
    assert d * n == r - t % n;
  }

  /** Where the endpoint `s` places after `r` is, counted around. */
  function Around(r: nat, s: nat, n: nat): int {
    if r + s < n then r + s else r + s - n
  }

  lemma NextRemainder(t: nat, n: nat)
    requires n > 0
    ensures (t + 1) % n == Around(t % n, 1, n)
  {
    var q, r := t / n, t % n;
    assert t == q * n + r;
    if r + 1 == n {
      assert t + 1 == (q + 1) * n;
      Remainder(t + 1, q + 1, n, 0);
    } else {
      Remainder(t + 1, q, n, r + 1);
    }
  }

  /** Endpoint `e` is among the `s` endpoints from `r` on, counted around. */
  predicate Covers(r: nat, s: nat, n: nat, e: nat) {
    if r + s <= n then r <= e < r + s else e >= r || e < r + s - n
  }

  lemma CountStep(start: nat, n: nat, k: nat, e: nat)
    requires n > 0 && k > 0 && start + k <= USIZE_LIMIT
    ensures Count(start, n, k, e) == Count(start, n, k - 1, e) + if (start + (k - 1)) % n == e then 1 else 0
  {
    assert Ticket(start, k - 1) == start + (k - 1);
  }

  /** Whole rounds, and a part of a round that starts where the first ticket points. */
  lemma {:induction false} Rounds(start: nat, n: nat, k: nat, e: nat) returns (q: nat, s: nat)
    requires n > 0 && e < n && start + k <= USIZE_LIMIT
    ensures k == q * n + s && s < n
    ensures (start + k) % n == Around(start % n, s, n)
    ensures Count(start, n, k, e) == q + if Covers(start % n, s, n, e) then 1 else 0
  {
    var r := start % n;
    if k == 0 {
      q, s := 0, 0;
    } else {
      q, s := Rounds(start, n, k - 1, e);
      NextRemainder(start + (k - 1), n);
      CountStep(start, n, k, e);
      if s + 1 == n {
        assert (q + 1) * n == q * n + n;
        q, s := q + 1, 0;
      } else {
        s := s + 1;
      }
    }
  }

  /** Without a wrap-around every endpoint gets the rounded-down or the rounded-up share of a window. */
  lemma WindowIsFair(start: nat, n: nat, k: nat, e: nat)
    requires n > 0 && e < n && start + k <= USIZE_LIMIT
    ensures k / n <= Count(start, n, k, e) <= k / n + if k % n == 0 then 0 else 1
  {
    var q, s := Rounds(start, n, k, e);
    Remainder(k, q, n, s);
  }

  lemma TicketAfterWrap(start: nat, k: nat, j: nat)
    requires start + k == USIZE_LIMIT && j < USIZE_LIMIT
    ensures Ticket(start, k + j) == j == Ticket(0, j)
  {
    Remainder(start + (k + j), 1, USIZE_LIMIT, j);
  }

  lemma {:induction false} CountSplits(start: nat, n: nat, k: nat, j: nat, e: nat)
    requires n > 0 && start + k == USIZE_LIMIT && j <= USIZE_LIMIT
    ensures Count(start, n, k + j, e) == Count(start, n, k, e) + Count(0, n, j, e)
  {
    if j > 0 {
      CountSplits(start, n, k, j - 1, e);
      TicketAfterWrap(start, k, j - 1);
      assert k + j - 1 == k + (j - 1);
    }
  }

  /** A window that crosses one wrap-around treats any two endpoints alike up to two requests. */
  lemma WrappedWindowIsFair(start: nat, n: nat, k: nat, e: nat, f: nat)
    requires n > 0 && e < n && f < n && start < USIZE_LIMIT && start + k <= 2 * USIZE_LIMIT
    ensures -2 <= Count(start, n, k, e) - Count(start, n, k, f) <= 2
  {
    if start + k <= USIZE_LIMIT {
      WindowIsFair(start, n, k, e);
      WindowIsFair(start, n, k, f);
    } else {
      var before := USIZE_LIMIT - start;
      CountSplits(start, n, before, k - before, e);
      CountSplits(start, n, before, k - before, f);
      WindowIsFair(start, n, before, e);
      WindowIsFair(start, n, before, f);
      WindowIsFair(0, n, k - before, e);
      WindowIsFair(0, n, k - before, f);
    }
  }
}
