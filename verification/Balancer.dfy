/** Round robin: `ProxyBalancer` (src/settings/mod.rs). The counter is an atomic word that wraps around. */
module Balancer {
  import opened Wrappers

  const WORD: nat := 0x1_0000_0000_0000_0000

  type Word = x: nat | x < 0x1_0000_0000_0000_0000

  datatype BalancerError = NoTargets

  function Succ(c: Word): Word {
    (c + 1) % WORD
  }

  class ProxyBalancer<T> {
    const targets: seq<T>
    var next: Word

    ghost predicate Valid() {
      |targets| > 0
    }

    constructor (targets: seq<T>)
      ensures this.targets == targets && next == 0
    {
      this.targets, this.next := targets, 0;
    }

    /** One atomic fetch-and-add; whichever thread picks, picks happen one after the other. */
    method NextIndex() returns (index: nat)
      requires Valid()
      modifies this
      ensures index == old(next) % |targets| && index < |targets|
      ensures next == Succ(old(next))
      ensures next == if old(next) == 0xFFFF_FFFF_FFFF_FFFF then 0 else old(next) + 1
    {
      index := next;
      next := (next + 1) % WORD;
      index := index % |targets|;
    }
  }

  method NewBalancer<T>(targets: seq<T>) returns (r: Result<ProxyBalancer<T>, BalancerError>)
    ensures r.Ok? <==> targets != []
    ensures r.Ok? ==> r.value.Valid() && r.value.targets == targets && r.value.next == 0 && fresh(r.value)
  {
    if targets == [] {
      return Err(NoTargets);
    }
    var b := new ProxyBalancer(targets);
    r := Ok(b);
  }

  /** `k` consecutive picks among `n` targets from counter value `c`, by any threads. */
  function Picks(c: Word, n: nat, k: nat): seq<nat>
    requires n > 0
    decreases k
  {
    if k == 0 then [] else [c % n] + Picks(Succ(c), n, k - 1)
  }

  function Count(s: seq<nat>, t: nat): nat {
    if s == [] then 0 else (if s[0] == t then 1 else 0) + Count(s[1..], t)
  }

  /** How many of 0, ..., m - 1 leave remainder `t`. */
  function Hits(m: nat, n: nat, t: nat): nat
    requires n > 0
  {
    m / n + if m % n > t then 1 else 0
  }

  lemma DivModOf(x: nat, n: nat, q: nat, r: nat)
    requires n > 0 && r < n && x == q * n + r
    ensures x / n == q && x % n == r
  {
    var d := x / n - q;
    assert x == (x / n) * n + x % n;
    assert (x / n - q) * n == r - x % n by {
      assert (x / n - q) * n == (x / n) * n - q * n;
    }
    assert d >= 1 ==> d * n >= n;
    assert d <= -1 ==> d * n <= 0 - n;
  }

  lemma DivModSucc(m: nat, n: nat)
    requires n > 0
    ensures m % n < n - 1 ==> (m + 1) / n == m / n && (m + 1) % n == m % n + 1
    ensures m % n == n - 1 ==> (m + 1) / n == m / n + 1 && (m + 1) % n == 0
  {
    var q, r := m / n, m % n;
    assert m == q * n + r;
    if r < n - 1 {
      DivModOf(m + 1, n, q, r + 1);
    } else {
      assert (q + 1) * n == q * n + n;
      DivModOf(m + 1, n, q + 1, 0);
    }
  }

  lemma HitsStep(m: nat, n: nat, t: nat)
    requires n > 0 && t < n
    ensures Hits(m + 1, n, t) == Hits(m, n, t) + if m % n == t then 1 else 0
  {
    DivModSucc(m, n);
  }

  lemma {:induction false} CountPicks(c: Word, n: nat, k: nat, t: nat)
    requires n > 0 && t < n && c + k < WORD
    ensures Count(Picks(c, n, k), t) == Hits(c + k, n, t) - Hits(c, n, t)
    decreases k
  {
    hide Hits;
    if k == 0 {
      assert Picks(c, n, 0) == [];
    } else {
      CountPicks(c + 1, n, k - 1, t);
      HitsStep(c, n, t);
      assert Succ(c) == c + 1;
    }
  }

  /** Picks that run into the wrap: `j` before it, the others counted from zero again. */
  lemma {:induction false} CountAcrossWrap(n: nat, j: nat, k: nat, t: nat)
    requires n > 0 && t < n && 0 < j <= k && j < WORD && k - j < WORD
    ensures Count(Picks(WORD - j, n, k), t) == Hits(WORD, n, t) - Hits(WORD - j, n, t) + Hits(k - j, n, t)
    decreases j
  {
    HitsStep(WORD - j, n, t);
    if j > 1 {
      assert Succ(WORD - j) == WORD - (j - 1);
      CountAcrossWrap(n, j - 1, k - 1, t);
    } else {
      assert Succ(WORD - 1) == 0;
      CountPicks(0, n, k - 1, t);
      DivModOf(0, n, 0, 0);
    }
  }

  /** Picks made before the counter wraps, the last possible one included. */
  lemma CountBeforeWrap(c: Word, n: nat, k: nat, t: nat)
    requires n > 0 && t < n && c + k <= WORD && k < WORD
    ensures Count(Picks(c, n, k), t) == Hits(c + k, n, t) - Hits(c, n, t)
  {
    if c + k < WORD {
      CountPicks(c, n, k, t);
    } else {
      CountAcrossWrap(n, k, k, t);
      DivModOf(0, n, 0, 0);
    }
  }

  /** Before the counter wraps, `n` consecutive picks hit each of the `n` targets exactly once. */
  lemma WindowIsFair(c: Word, n: nat, t: nat)
    requires 0 < n < WORD && t < n && c + n <= WORD
    ensures Count(Picks(c, n, n), t) == 1
  {
    hide Picks, Count;
    CountBeforeWrap(c, n, n, t);
    var q, r := c / n, c % n;
    assert c + n == (q + 1) * n + r;
    DivModOf(c + n, n, q + 1, r);
  }

  /** Before the counter wraps, the pick counts of two targets never differ by more than one. */
  lemma CountsStayLevel(c: Word, n: nat, k: nat, t: nat, u: nat)
    requires n > 0 && t < n && u < n && c + k <= WORD && k < WORD
    ensures -1 <= Count(Picks(c, n, k), t) - Count(Picks(c, n, k), u) <= 1
  {
    CountBeforeWrap(c, n, k, t);
    CountBeforeWrap(c, n, k, u);
  }

  /** Every pick is a valid index, also across the wrap. */
  lemma {:induction false} PicksAreValid(c: Word, n: nat, k: nat, i: nat)
    requires n > 0 && i < k
    ensures |Picks(c, n, k)| == k && Picks(c, n, k)[i] < n
    decreases k
  {
    if k > 1 {
      PicksAreValid(Succ(c), n, k - 1, if i == 0 then 0 else i - 1);
    }
  }

  ghost predicate PickedOnce(picks: seq<nat>, t: nat) {
    Count(picks, t) == 1
  }

  /** A window of `n` picks of which `j` come before the wrap. */
  ghost function Straddling(n: nat, j: nat): seq<nat>
    requires 0 < j < n < WORD
  {
    Picks(WORD - j, n, n)
  }

  /** Quotient and remainder of the counter `j` picks before the wrap. */
  lemma BeforeWrap(n: nat, j: nat)
    requires 0 < j < n < WORD
    ensures var q, r := WORD / n, WORD % n;
            && WORD - j > 0
            && (WORD - j) / n == (if r >= j then q else q - 1)
            && (WORD - j) % n == (if r >= j then r - j else n + r - j)
            && (n - j) / n == 0 && (n - j) % n == n - j
  {
    var q, r := WORD / n, WORD % n;
    assert WORD == q * n + r;
    DivModOf(n - j, n, 0, n - j);
    if r >= j {
      DivModOf(WORD - j, n, q, r - j);
    } else {
      assert q == 0 ==> q * n == 0;
      assert (q - 1) * n == q * n - n;
      DivModOf(WORD - j, n, q - 1, n + r - j);
    }
  }

  /** A window of `n` picks that straddles the wrap is fair exactly when `n` divides the counter's range. */
  lemma WindowAcrossWrapIff(n: nat, j: nat)
    requires 0 < j < n < WORD
    ensures (forall t | 0 <= t < n :: PickedOnce(Straddling(n, j), t)) <==> WORD % n == 0
  {
    hide Picks, Count;
    BeforeWrap(n, j);
    forall t | 0 <= t < n
      ensures Count(Straddling(n, j), t) == Hits(WORD, n, t) - Hits(WORD - j, n, t) + Hits(n - j, n, t)
    {
      CountAcrossWrap(n, j, n, t);
    }
    var r := WORD % n;
    if r >= j {
      assert !PickedOnce(Straddling(n, j), n - 1);
    } else if r > 0 {
      assert !PickedOnce(Straddling(n, j), 0);
    }
  }

  /** Such a window that is not fair: of three targets the first is picked twice and the last not at all. */
  lemma WindowAcrossWrapIsUnfair()
    ensures Straddling(3, 1) == [0, 0, 1]
  {
    assert Succ(WORD - 1) == 0 && Succ(0) == 1;
    assert Picks(1, 3, 1) == [1] + Picks(2, 3, 0);
    assert Picks(0, 3, 2) == [0] + Picks(1, 3, 1);
  }
}
