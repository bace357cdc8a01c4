/** How far a budget of commits goes when each chunk takes one and each batch one more. */
module CommitBudget {
  import opened Common

  /** The flag commits of a run. */
  function Batches(chunks: nat, batchSize: nat): nat
    requires batchSize > 0
  {
    (chunks + batchSize - 1) / batchSize
  }

  /** The chunks a budget stores if there are enough. */
  function Puts(budget: nat, batchSize: nat): nat
    requires batchSize > 0
  {
    QuotientBound(budget, batchSize + 1);
    budget - budget / (batchSize + 1)
  }

  lemma QuotientBound(a: nat, d: nat)
    requires d > 0
    ensures 0 <= a / d <= a
  {
    DivMod(a, d);
    MulGrows(a / d, 1, d);
  }

  lemma DivMod(a: int, d: int)
    requires d > 0
    ensures a == (a / d) * d + a % d && 0 <= a % d < d
  {
  }

  lemma MulGrows(q: int, x: int, d: int)
    requires d >= x && q >= 0
    ensures q * d >= q * x
  {
    assert q * (d - x) >= 0;
    assert q * d == q * (d - x) + q * x;
  }

  lemma UniqueQuotient(d: int, t: int, r: int, q: int, s: int)
    requires d > 0 && t * d + r == q * d + s && 0 <= r < d && 0 <= s < d
    ensures t == q
  {
    if t > q {
      Step(t, q, d);
    } else if t < q {
      Step(q, t, d);
    }
  }

  lemma Step(t: int, q: int, d: int)
    requires t > q && d > 0
    ensures t * d >= q * d + d
  {
    MulGrows(d, q + 1, t);
    assert d * (q + 1) == q * d + d;
  }

  lemma Quotient(a: int, d: int, t: int, r: int)
    requires d > 0 && a == t * d + r && 0 <= r < d
    ensures a / d == t
  {
    DivMod(a, d);
    UniqueQuotient(d, t, r, a / d, a % d);
  }

  /** After `q` batches: what is done and left, or why the budget ran out. */
  ghost predicate Accounts(n: nat, k: nat, budget: nat, done: nat, left: nat, finished: bool, q: nat)
    requires k > 0
  {
    if finished then
      && done == Min(q * k, n) && left == budget - done - q && (q > 0 ==> (q - 1) * k < n)
    else
      done == Min(n, Puts(budget, k)) && budget < n + Batches(n, k)
  }

  lemma BatchesAtLeast(n: nat, k: nat, q: nat)
    requires k > 0 && q * k < n
    ensures Batches(n, k) >= q + 1
  {
    var b, a := Batches(n, k), n + k - 1;
    DivMod(a, k);
    if b <= q {
      MulGrows(k, b, q);
    }
  }

  lemma BatchesAtMost(n: nat, k: nat)
    requires k > 0
    ensures Batches(n, k) <= n
  {
    var a := n + k - 1;
    DivMod(a, k);
    if a / k > n {
      MulGrows(k, n + 1, a / k);
      assert k * (n + 1) == k * n + k;
      MulGrows(n, 1, k);
    }
  }

  lemma BatchesAre(n: nat, k: nat, q: nat)
    requires k > 0 && q * k >= n && (q > 0 ==> (q - 1) * k < n) && (n == 0 ==> q == 0)
    ensures Batches(n, k) == q
  {
    var a := n + k - 1;
    assert a - q * k == n - (q - 1) * k - 1 by {
      assert (q - 1) * k == q * k - k;
    }
    Quotient(a, k, q, a - q * k);
  }

  /** A budget of `q` whole batches and `rest` more commits. */
  lemma PutsOf(q: nat, k: nat, rest: nat, m: nat)
    requires k > 0 && m <= k
    ensures rest <= m ==> Puts(q * (k + 1) + rest, k) == q * k + rest
    ensures rest > m ==> Puts(q * (k + 1) + rest, k) >= q * k + m
  {
    var d := k + 1;
    var x, s := rest / d, rest % d;
    var budget := q * d + rest;
    assert budget == (q + x) * d + s by {
      assert rest == x * d + s;
      assert (q + x) * d == q * d + x * d;
    }
    Quotient(budget, d, q + x, s);
    assert q * d == q * k + q;
    assert x * d == x * k + x;
    if x > 0 {
      assert x * k >= k;
    }
  }

  lemma PutsPositive(budget: nat, k: nat)
    requires k > 0 && budget >= 1
    ensures Puts(budget, k) >= 1
  {
    DivMod(budget, k + 1);
    MulGrows(budget / (k + 1), 2, k + 1);
  }

  lemma AccountsNext(n: nat, k: nat, budget: nat, done: nat, left: nat, q: nat)
    requires k > 0 && Accounts(n, k, budget, done, left, true, q) && done < n
    ensures var m := Min(k, n - done);
            if m < left then Accounts(n, k, budget, done + m, left - m - 1, true, q + 1)
            else Accounts(n, k, budget, done + left, left, false, q)
  {
    var m := Min(k, n - done);
    assert done == q * k;
    assert (q + 1) * k == q * k + k;
    if left <= m {
      assert budget == q * (k + 1) + left by {
        assert q * (k + 1) == q * k + q;
      }
      PutsOf(q, k, left, m);
      BatchesAtLeast(n, k, q);
    }
  }

  lemma AccountsEnd(n: nat, k: nat, budget: nat, left: nat, q: nat)
    requires k > 0 && Accounts(n, k, budget, n, left, true, q) && q * k >= n && (n == 0 ==> q == 0)
    ensures budget == n + Batches(n, k) + left && Puts(budget, k) >= n
  {
    BatchesAre(n, k, q);
    if q > 0 {
      var m := n - (q - 1) * k;
      assert q * k == (q - 1) * k + k;
      assert budget == (q - 1) * (k + 1) + (m + 1 + left) by {
        assert (q - 1) * (k + 1) == (q - 1) * k + (q - 1);
      }
      PutsOf(q - 1, k, m + 1 + left, m);
    }
  }

  /** Turns of two commits each, of `size` records, until `rest` records are read or the commits run out. */
  lemma TurnsMade(rest: nat, size: nat, commits: nat, turns: nat, exhausted: bool)
    requires size > 0 && 2 * turns <= commits && (turns > 0 ==> size * (turns - 1) < rest)
    requires if exhausted then size * turns >= rest else commits < 2 * turns + 2 && size * turns < rest
    ensures exhausted ==> Batches(rest, size) == turns && size * (commits / 2) >= rest
    ensures !exhausted ==> commits < 2 * Batches(rest, size) && commits / 2 == turns
  {
    if exhausted {
      BatchesAre(rest, size, turns);
      MulGrows(size, turns, commits / 2);
    } else {
      BatchesAtLeast(rest, size, turns);
    }
  }
}
