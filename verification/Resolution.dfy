/** Recursive resolution of a name-valued variable: the bounded do/while loop of server_run, what
    it finds on every chain, and when its ELOOP means a cycle. */
module Resolution {
  import opened Types
  import LogText
  import StoreCalls

  /** The lookup after the loop, made on a key that holds no name. */
  function FinalLookup(m: Variables, key: Text): Outcome {
    if key in m && m[key].Num? then Good(m[key].n) else Bad(ENOENT)
  }

  /** The loop, entered with temp = key after i iterations. */
  function Resolve(m: Variables, key: Text, i: nat, limit: nat): Outcome
    decreases limit - i
  {
    var temp := StoreCalls.NameLookup(m, Some(key));
    if temp.Some? && i + 1 < limit then Resolve(m, temp.value, i + 1, limit)
    else if i + 1 < limit then FinalLookup(m, key)
    else Bad(ELOOP)
  }

  /** The key n links away, None when the chain is shorter. */
  function Walk(m: Variables, key: Text, n: nat): Option<Text>
    decreases n
  {
    if n == 0 then Some(key)
    else if key in m && m[key].Ref? then Walk(m, m[key].target, n - 1)
    else None
  }

  /** The chain from key has exactly n links and ends in `last`: a number or a missing variable. */
  predicate EndsAt(m: Variables, key: Text, n: nat, last: Text) {
    Walk(m, key, n) == Some(last) && !(last in m && m[last].Ref?)
  }

  lemma {:induction false} WalkStep(m: Variables, key: Text, n: nat)
    ensures Walk(m, key, n + 1) ==
            if Walk(m, key, n).Some? then StoreCalls.NameLookup(m, Walk(m, key, n)) else None
    decreases n
  {
    if n > 0 && key in m && m[key].Ref? {
      WalkStep(m, m[key].target, n - 1);
    }
  }

  lemma {:induction false} WalkAdds(m: Variables, key: Text, i: nat, d: nat)
    requires Walk(m, key, i).Some?
    ensures Walk(m, key, i + d) == Walk(m, Walk(m, key, i).value, d)
    decreases i
  {
    if i > 0 {
      WalkAdds(m, m[key].target, i - 1, d);
    }
  }

  /** A chain has at most one end, and nothing lies beyond it. */
  lemma {:induction false} NothingBeyondEnd(m: Variables, key: Text, n: nat, last: Text, j: nat)
    requires EndsAt(m, key, n, last) && j > n
    ensures Walk(m, key, j) == None
    decreases n
  {
    if n > 0 {
      NothingBeyondEnd(m, m[key].target, n - 1, last, j - 1);
    }
  }

  lemma {:induction false} ResolveWhenEnding(m: Variables, key: Text, i: nat, limit: nat, n: nat, last: Text)
    requires EndsAt(m, key, n, last)
    ensures Resolve(m, key, i, limit) == if i + n + 1 < limit then FinalLookup(m, last) else Bad(ELOOP)
    decreases n
  {
    if n > 0 && i + 1 < limit {
      ResolveWhenEnding(m, m[key].target, i + 1, limit, n - 1, last);
    }
  }

  lemma {:induction false} ResolveWhenEndless(m: Variables, key: Text, i: nat, limit: nat)
    requires forall n: nat | i + n < limit :: Walk(m, key, n).Some?
    ensures Resolve(m, key, i, limit) == Bad(ELOOP)
    decreases limit - i
  {
    if i + 1 < limit {
      assert Walk(m, key, 1).Some?;
      var next := m[key].target;
      forall n: nat | (i + 1) + n < limit
        ensures Walk(m, next, n).Some?
      {
        assert Walk(m, key, n + 1).Some?;
      }
      ResolveWhenEndless(m, next, i + 1, limit);
    }
  }

  /** Either some chain end is within reach of the loop, or every step the loop takes has a next. */
  lemma {:induction false} EndWithin(m: Variables, key: Text, steps: nat) returns (n: nat, last: Text)
    ensures n <= steps
    ensures n < steps ==> EndsAt(m, key, n, last)
    ensures n == steps ==> forall j: nat | j <= steps :: Walk(m, key, j).Some?
  {
    n, last := 0, key;
    while n < steps && last in m && m[last].Ref?
      invariant n <= steps
      invariant Walk(m, key, n) == Some(last)
      invariant forall j: nat | j <= n :: Walk(m, key, j).Some?
    {
      WalkStep(m, key, n);
      n, last := n + 1, m[last].target;
    }
  }

  /** Resolution is exact: a chain of n links gives the number its end holds, or ENOENT when the end is
      no variable, if n + 1 < limit; every other start, cycles included, gives ELOOP. */
  lemma ResolveExact(m: Variables, key: Text, limit: nat)
    ensures forall n: nat, last | EndsAt(m, key, n, last) && n + 1 < limit ::
              Resolve(m, key, 0, limit) == if last in m then Good(m[last].n) else Bad(ENOENT)
    ensures Resolve(m, key, 0, limit) == Bad(ELOOP) <==>
            !exists n: nat, last :: EndsAt(m, key, n, last) && n + 1 < limit
  {
    forall n: nat, last | EndsAt(m, key, n, last)
      ensures Resolve(m, key, 0, limit) == if n + 1 < limit then FinalLookup(m, last) else Bad(ELOOP)
    {
      ResolveWhenEnding(m, key, 0, limit, n, last);
    }
    if limit > 0 {
      var n, last := EndWithin(m, key, limit - 1);
      if n == limit - 1 {
        ResolveWhenEndless(m, key, 0, limit);
      }
    }
  }

  // ---------- ELOOP and cycles ----------

  ghost function NameKeys(m: Variables): set<Text> {
    set k | k in m && m[k].Ref?
  }

  /** Following the chain visits some key twice. */
  ghost predicate Cyclic(m: Variables, key: Text) {
    exists i: nat, j: nat :: i < j && Walk(m, key, i).Some? && Walk(m, key, i) == Walk(m, key, j)
  }

  lemma {:induction false} Pigeonhole<T>(s: seq<T>, pool: set<T>) returns (i: nat, j: nat)
    requires |s| > |pool| && forall k | 0 <= k < |s| :: s[k] in pool
    ensures i < j < |s| && s[i] == s[j]
    decreases |s|
  {
    var first := s[0];
    if j' :| 1 <= j' < |s| && s[j'] == first {
      return 0, j';
    }
    var i', j'' := Pigeonhole(s[1..], pool - {first});
    return i' + 1, j'' + 1;
  }

  lemma CycleHasNoEnd(m: Variables, key: Text, n: nat, last: Text)
    requires Cyclic(m, key)
    ensures !EndsAt(m, key, n, last)
  {
    if EndsAt(m, key, n, last) {
      var i: nat, j: nat :| i < j && Walk(m, key, i).Some? && Walk(m, key, i) == Walk(m, key, j);
      if n < i {
        NothingBeyondEnd(m, key, n, last, i);
      } else {
        WalkAdds(m, key, i, n - i);
        WalkAdds(m, key, j, n - i);
        NothingBeyondEnd(m, key, n, last, j + (n - i));
      }
    }
  }

  /** With a limit of at least two more than the number of name-valued variables, ELOOP is the
      answer exactly for cyclic chains. */
  lemma LoopErrorMeansCycle(m: Variables, key: Text, limit: nat)
    requires limit >= |NameKeys(m)| + 2
    ensures Resolve(m, key, 0, limit) == Bad(ELOOP) <==> Cyclic(m, key)
  {
    ResolveExact(m, key, limit);
    if Cyclic(m, key) {
      forall n: nat, last
        ensures !EndsAt(m, key, n, last)
      {
        CycleHasNoEnd(m, key, n, last);
      }
    }
    var n, last := EndWithin(m, key, limit - 1);
    if n == limit - 1 {
      forall k | 0 <= k < limit - 1
        ensures Walk(m, key, k).Some? && Walk(m, key, k).value in NameKeys(m)
      {
        WalkStep(m, key, k);
      }
      var visited := seq(limit - 1, k requires 0 <= k < limit - 1 => Walk(m, key, k).value);
      var i, j := Pigeonhole(visited, NameKeys(m));
      assert Walk(m, key, i) == Walk(m, key, j);
    }
  }

  // ---------- The bound is sharp ----------

  /** The names a0, a1, a2 and so on. */
  function NameOf(i: nat): Text {
    [97] + LogText.Digits(i)
  }

  lemma NamesDiffer(i: nat, j: nat)
    requires NameOf(i) == NameOf(j)
    ensures i == j
  {
    assert NameOf(i)[1..] == LogText.Digits(i) && NameOf(j)[1..] == LogText.Digits(j);
    LogText.DigitsValueOfDigits(i);
    LogText.DigitsValueOfDigits(j);
  }

  /** a0 is a number and each further name refers to the one before it. */
  function LongChain(k: nat): Variables {
    if k == 0 then map[NameOf(0) := Num(7)] else LongChain(k - 1)[NameOf(k) := Ref(NameOf(k - 1))]
  }

  lemma {:induction false} LongChainLacks(k: nat, j: nat)
    requires j > k
    ensures NameOf(j) !in LongChain(k)
  {
    hide NameOf;
    if NameOf(j) == NameOf(k) {
      NamesDiffer(j, k);
    }
    if k > 0 {
      LongChainLacks(k - 1, j);
    }
  }

  lemma {:induction false} LongChainAt(k: nat, i: nat)
    requires i <= k
    ensures NameOf(i) in LongChain(k)
    ensures LongChain(k)[NameOf(i)] == if i == 0 then Num(7) else Ref(NameOf(i - 1))
  {
    hide NameOf;
    if i < k {
      LongChainAt(k - 1, i);
      LongChainLacks(k - 1, k);
    }
  }

  lemma {:induction false} LongChainNames(k: nat)
    ensures |NameKeys(LongChain(k))| == k
  {
    hide NameOf;
    if k == 0 {
      assert NameKeys(LongChain(0)) == {};
    } else {
      LongChainNames(k - 1);
      LongChainLacks(k - 1, k);
      assert NameKeys(LongChain(k)) == NameKeys(LongChain(k - 1)) + {NameOf(k)};
    }
  }

  lemma {:induction false} LongChainWalk(k: nat, i: nat)
    requires i <= k
    ensures Walk(LongChain(k), NameOf(i), i) == Some(NameOf(0))
  {
    hide NameOf, LongChain;
    LongChainAt(k, i);
    if i > 0 {
      LongChainWalk(k, i - 1);
    }
  }

  /** For every number of name-valued variables there is a chain without a cycle that a limit of one
      more than that number answers with ELOOP, and a limit of two more with its number. */
  lemma ShortLimitBlamesChain(k: nat)
    ensures var m, key := LongChain(k), NameOf(k);
            && |NameKeys(m)| == k && !Cyclic(m, key)
            && Resolve(m, key, 0, k + 1) == Bad(ELOOP)
            && Resolve(m, key, 0, k + 2) == Good(7)
  {
    hide NameOf, LongChain, NameKeys, Resolve;
    var m, key := LongChain(k), NameOf(k);
    LongChainNames(k);
    LongChainAt(k, 0);
    LongChainWalk(k, k);
    ResolveWhenEnding(m, key, 0, k + 1, k, NameOf(0));
    ResolveWhenEnding(m, key, 0, k + 2, k, NameOf(0));
    if Cyclic(m, key) {
      CycleHasNoEnd(m, key, k, NameOf(0));
    }
  }
}
