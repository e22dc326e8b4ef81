/** What `filter`, and `filter` with `map`, keep of a list: the chosen elements, each once, in their order. */
module Selection {
  import opened Optional

  /** `kept` is what `pick` makes of the elements it takes, in their order. */
  ghost predicate Selects<S, T>(all: seq<S>, pick: S -> Option<T>, kept: seq<T>) {
    exists at: seq<nat> :: SelectsAt(all, pick, kept, at)
  }

  /** They stand at the ascending indices `at`, and nothing taken stands anywhere else. */
  ghost predicate SelectsAt<S, T>(all: seq<S>, pick: S -> Option<T>, kept: seq<T>, at: seq<nat>) {
    && |at| == |kept| && Ascends(at)
    && (forall i | 0 <= i < |at| :: at[i] < |all| && pick(all[at[i]]) == Some(kept[i]))
    && (forall k | 0 <= k < |all| && pick(all[k]).Some? :: k in at)
  }

  ghost predicate Ascends(at: seq<nat>) {
    forall i, j | 0 <= i < j < |at| :: at[i] < at[j]
  }

  lemma SelectsNone<S, T>(pick: S -> Option<T>)
    ensures Selects([], pick, [])
  {
    assert SelectsAt([], pick, [], []);
  }

  /** What is kept of one element. */
  function Picked<T>(picked: Option<T>): (kept: seq<T>) {
    if picked.Some? then [picked.value] else []
  }

  lemma SelectsOne<S, T>(x: S, pick: S -> Option<T>)
    ensures Selects([x], pick, Picked(pick(x)))
  {
    assert SelectsAt([x], pick, Picked(pick(x)), if pick(x).Some? then [0] else []);
  }

  function Shifted(at: seq<nat>, n: nat): (shifted: seq<nat>)
    ensures |shifted| == |at| && forall i | 0 <= i < |at| :: shifted[i] == at[i] + n
  {
    seq(|at|, i requires 0 <= i < |at| => at[i] + n)
  }

  lemma InShifted(atA: seq<nat>, atB: seq<nat>, n: nat, k: nat)
    ensures k in atA ==> k in atA + Shifted(atB, n)
    ensures k >= n && k - n in atB ==> k in atA + Shifted(atB, n)
  {
    if k >= n && k - n in atB {
      var i :| 0 <= i < |atB| && atB[i] == k - n;
      assert Shifted(atB, n)[i] == k;
    }
  }

  lemma SelectsConcat<S, T>(a: seq<S>, b: seq<S>, pick: S -> Option<T>, keptA: seq<T>, keptB: seq<T>)
    requires Selects(a, pick, keptA) && Selects(b, pick, keptB)
    ensures Selects(a + b, pick, keptA + keptB)
  {
    var atA :| SelectsAt(a, pick, keptA, atA);
    var atB :| SelectsAt(b, pick, keptB, atB);
    SelectsAtConcat(a, b, pick, keptA, keptB, atA, atB);
  }

  lemma SelectsAtConcat<S, T>(a: seq<S>, b: seq<S>, pick: S -> Option<T>, keptA: seq<T>, keptB: seq<T>,
                              atA: seq<nat>, atB: seq<nat>)
    requires SelectsAt(a, pick, keptA, atA) && SelectsAt(b, pick, keptB, atB)
    ensures SelectsAt(a + b, pick, keptA + keptB, atA + Shifted(atB, |a|))
  {
    var all, at, kept := a + b, atA + Shifted(atB, |a|), keptA + keptB;
    forall k | 0 <= k < |all| && pick(all[k]).Some?
      ensures k in at
    {
      InShifted(atA, atB, |a|, k);
      if k >= |a| { assert all[k] == b[k - |a|]; }
    }
    forall i | 0 <= i < |at|
      ensures at[i] < |all| && pick(all[at[i]]) == Some(kept[i])
    {
      if i >= |atA| { assert at[i] == atB[i - |atA|] + |a|; }
    }
  }

  /** One step of a list built from its first element on. */
  lemma SelectsFirst<S, T>(all: seq<S>, pick: S -> Option<T>, kept: seq<T>, rest: seq<T>)
    requires all != [] && Selects(all[1..], pick, rest) && kept == Picked(pick(all[0])) + rest
    ensures Selects(all, pick, kept)
  {
    SelectsOne(all[0], pick);
    Joined([all[0]], all[1..], all, pick, Picked(pick(all[0])), rest, kept);
  }

  /** And of one built from its last element on. */
  lemma SelectsLast<S, T>(all: seq<S>, pick: S -> Option<T>, kept: seq<T>, front: seq<T>)
    requires all != [] && Selects(all[..|all| - 1], pick, front)
    requires kept == front + Picked(pick(all[|all| - 1]))
    ensures Selects(all, pick, kept)
  {
    SelectsOne(all[|all| - 1], pick);
    Joined(all[..|all| - 1], [all[|all| - 1]], all, pick, front, Picked(pick(all[|all| - 1])), kept);
  }

  lemma Joined<S, T>(a: seq<S>, b: seq<S>, all: seq<S>, pick: S -> Option<T>, keptA: seq<T>, keptB: seq<T>,
                     kept: seq<T>)
    requires all == a + b && kept == keptA + keptB && Selects(a, pick, keptA) && Selects(b, pick, keptB)
    ensures Selects(all, pick, kept)
  {
    SelectsConcat(a, b, pick, keptA, keptB);
  }

  /** There is only one such list. */
  lemma SelectsIsUnique<S, T>(all: seq<S>, pick: S -> Option<T>, kept: seq<T>, kept': seq<T>)
    requires Selects(all, pick, kept) && Selects(all, pick, kept')
    ensures kept == kept'
  {
    var at :| SelectsAt(all, pick, kept, at);
    var at' :| SelectsAt(all, pick, kept', at');
    SameIndices(at, at');
  }

  lemma LastIsGreatest(a: seq<nat>, k: nat)
    requires Ascends(a) && k in a
    ensures k <= a[|a| - 1] && (k in a[..|a| - 1] <==> k < a[|a| - 1])
  {
    var i :| 0 <= i < |a| && a[i] == k;
    if i < |a| - 1 { assert a[..|a| - 1][i] == k; }
  }

  ghost predicate SameElements(a: seq<nat>, b: seq<nat>) {
    forall k :: k in a <==> k in b
  }

  lemma SomeIndex(a: seq<nat>)
    ensures a != [] ==> exists k :: k in a
  {
    if a != [] { assert a[0] in a; }
  }

  lemma {:induction false} SameIndices(a: seq<nat>, b: seq<nat>)
    requires Ascends(a) && Ascends(b) && SameElements(a, b)
    ensures a == b
  {
    SomeIndex(a);
    SomeIndex(b);
    if a != [] {
      SameLast(a, b);
      SameIndices(a[..|a| - 1], b[..|b| - 1]);
      SameWhole(a, b);
    }
  }

  lemma SameWhole(a: seq<nat>, b: seq<nat>)
    requires a != [] && b != []
    requires a[..|a| - 1] == b[..|b| - 1] && a[|a| - 1] == b[|b| - 1]
    ensures a == b
  {
    assert a == a[..|a| - 1] + [a[|a| - 1]] && b == b[..|b| - 1] + [b[|b| - 1]];
  }

  lemma SameLast(a: seq<nat>, b: seq<nat>)
    requires a != [] && b != [] && Ascends(a) && Ascends(b) && SameElements(a, b)
    ensures a[|a| - 1] == b[|b| - 1] && SameElements(a[..|a| - 1], b[..|b| - 1])
  {
    assert a[|a| - 1] in b;
    LastIsGreatest(a, b[|b| - 1]);
    LastIsGreatest(b, a[|a| - 1]);
    var front, front' := a[..|a| - 1], b[..|b| - 1];
    forall k: nat
      ensures k in front <==> k in front'
    {
      if k in a {
        LastIsGreatest(a, k);
        LastIsGreatest(b, k);
      }
    }
  }
}
