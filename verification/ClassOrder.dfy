/** Restoring the input order of the classes a merge kept (utils/shadcn-templ.go, twReorder). */
module ClassOrder {
  import opened Wrappers
  import opened Text

  type Classes = seq<string>

  /** The token at `i` is among the last `m[token]` occurrences of its class. */
  predicate AmongLast(tokens: Classes, m: multiset<string>, i: nat)
    requires i < |tokens|
  {
    multiset(tokens[i + 1..])[tokens[i]] < m[tokens[i]]
  }

  /** The tokens among the last occurrences, in input order. */
  function KeepLast(tokens: Classes, m: multiset<string>): Classes {
    if tokens == [] then []
    else (if AmongLast(tokens, m, 0) then [tokens[0]] else []) + KeepLast(tokens[1..], m)
  }

  lemma KeepLastStep(tokens: Classes, m: multiset<string>, i: nat)
    requires i < |tokens|
    ensures KeepLast(tokens[i..], m) == (if AmongLast(tokens, m, i) then [tokens[i]] else []) + KeepLast(tokens[i + 1..], m)
    ensures multiset(tokens[i..]) == multiset{tokens[i]} + multiset(tokens[i + 1..])
  {
    assert tokens[i..][1..] == tokens[i + 1..];
    assert tokens[i..] == [tokens[i]] + tokens[i + 1..];
  }

  function Reordered(input: string, merged: string): string {
    var survivors := Fields(merged);
    var kept := KeepLast(Fields(input), multiset(survivors));
    if |survivors| < 2 || |kept| != |survivors| then merged else Join(kept, ' ')
  }

  function Reversed(s: Classes): Classes {
    if s == [] then [] else Reversed(s[1..]) + [s[0]]
  }

  lemma {:induction false} ReversedSnoc(s: Classes, x: string)
    ensures Reversed(s + [x]) == [x] + Reversed(s)
  {
    if s != [] {
      assert (s + [x])[1..] == s[1..] + [x];
      ReversedSnoc(s[1..], x);
    } else {
      assert [x][1..] == [] && s + [x] == [x];
    }
  }

  function Remaining(counts: map<string, int>, c: string): int {
    if c in counts then counts[c] else 0
  }

  /** The budget of a class after the tokens `seen`. */
  function Left(m: multiset<string>, seen: multiset<string>, c: string): int { m[c] - Min(m[c], seen[c]) }

  lemma LeftAfter(m: multiset<string>, seen: multiset<string>, c: string, k: string)
    ensures Left(m, seen + multiset{c}, k) == Left(m, seen, k) - (if k == c && Left(m, seen, c) > 0 then 1 else 0)
  {
    assert (seen + multiset{c})[k] == seen[k] + (if k == c then 1 else 0);
  }

  ghost predicate Budgeted(m: multiset<string>, seen: multiset<string>, remaining: map<string, int>) {
    forall c :: Remaining(remaining, c) == Left(m, seen, c)
  }

  lemma BudgetAfter(m: multiset<string>, seen: multiset<string>, remaining: map<string, int>, c: string)
    requires Budgeted(m, seen, remaining)
    ensures var left := Remaining(remaining, c);
            Budgeted(m, seen + multiset{c}, if left == 0 then remaining else remaining[c := left - 1])
  {
    var left := Remaining(remaining, c);
    var r := if left == 0 then remaining else remaining[c := left - 1];
    forall k ensures Remaining(r, k) == Left(m, seen + multiset{c}, k) {
      LeftAfter(m, seen, c, k);
    }
  }

  /** What the walk has collected and what is left of its budgets when it has come down to `i`. */
  ghost predicate Walked(tokens: Classes, m: multiset<string>, i: nat, ordered: Classes, remaining: map<string, int>)
    requires i <= |tokens|
  {
    && Reversed(ordered) == KeepLast(tokens[i..], m) && |ordered| == |KeepLast(tokens[i..], m)|
    && Budgeted(m, multiset(tokens[i..]), remaining)
  }

  /** One token is worth keeping exactly while its class has budget left. */
  lemma WalkOn(tokens: Classes, m: multiset<string>, i: nat, ordered: Classes, remaining: map<string, int>)
    requires 0 < i <= |tokens| && Walked(tokens, m, i, ordered, remaining)
    ensures var c := tokens[i - 1];
            var left := Remaining(remaining, c);
            if left == 0 then Walked(tokens, m, i - 1, ordered, remaining)
            else Walked(tokens, m, i - 1, ordered + [c], remaining[c := left - 1])
  {
    var c := tokens[i - 1];
    var seen := multiset(tokens[i..]);
    KeepLastStep(tokens, m, i - 1);
    assert multiset(tokens[i - 1..]) == seen + multiset{c};
    BudgetAfter(m, seen, remaining, c);
    assert AmongLast(tokens, m, i - 1) <==> Left(m, seen, c) > 0;
    ReversedSnoc(ordered, c);
  }

  /** The walk from the right over the input, with a budget per class. */
  method Reorder(input: string, merged: string) returns (r: string)
    ensures r == Reordered(input, merged)
  {
    var survivors := Fields(merged);
    if |survivors| < 2 {
      return merged;
    }
    var remaining := CountClasses(survivors);
    ghost var m := multiset(survivors);
    var ordered: Classes := [];
    var tokens := Fields(input);
    var i := |tokens|;
    assert tokens[i..] == [];
    while i > 0
      invariant 0 <= i <= |tokens|
      invariant Walked(tokens, m, i, ordered, remaining)
    {
      WalkOn(tokens, m, i, ordered, remaining);
      i := i - 1;
      var c := tokens[i];
      if Remaining(remaining, c) == 0 {
        continue;
      }
      remaining := remaining[c := Remaining(remaining, c) - 1];
      ordered := ordered + [c];
    }
    assert tokens[0..] == tokens;
    if |ordered| != |survivors| {
      return merged;
    }
    return Join(Reversed(ordered), ' ');
  }

  method CountClasses(survivors: Classes) returns (counts: map<string, int>)
    ensures forall c :: Remaining(counts, c) == multiset(survivors)[c]
  {
    counts := map[];
    for i := 0 to |survivors|
      invariant forall c :: Remaining(counts, c) == multiset(survivors[..i])[c]
    {
      assert survivors[..i + 1] == survivors[..i] + [survivors[i]];
      counts := counts[survivors[i] := Remaining(counts, survivors[i]) + 1];
    }
    assert survivors[..|survivors|] == survivors;
  }

  // ---------------------------------------------------------------- what is kept

  /** As many of each class as asked for and available. */
  lemma {:induction false} KeepLastContents(tokens: Classes, m: multiset<string>)
    ensures multiset(KeepLast(tokens, m)) == multiset(tokens) * m
  {
    if tokens != [] {
      KeepLastContents(tokens[1..], m);
      assert tokens == [tokens[0]] + tokens[1..];
    }
  }

  lemma IntersectionSize(a: multiset<string>, m: multiset<string>)
    ensures |a * m| == |m| <==> m <= a
  {
    if m <= a {
      assert a * m == m;
    } else {
      assert m == (a * m) + (m - a * m);
      var x :| x in m && m[x] > a[x];
      assert x in m - a * m;
    }
  }

  /** Strictly increasing positions of `tokens` that spell `kept`. */
  ghost predicate SpelledAt(tokens: Classes, at: seq<nat>, kept: Classes) {
    && |at| == |kept|
    && (forall j | 0 <= j < |at| :: at[j] < |tokens| && tokens[at[j]] == kept[j])
    && (forall j, k | 0 <= j < k < |at| :: at[j] < at[k])
  }

  /** Exactly the positions among the last occurrences are kept, in order. */
  lemma {:induction false} KeptPositions(tokens: Classes, m: multiset<string>, i: nat) returns (at: seq<nat>)
    requires i <= |tokens|
    ensures SpelledAt(tokens, at, KeepLast(tokens[i..], m))
    ensures forall j: nat | j < |tokens| :: j in at <==> i <= j && AmongLast(tokens, m, j)
    ensures forall j | 0 <= j < |at| :: i <= at[j]
    decreases |tokens| - i
  {
    if i == |tokens| {
      at := [];
    } else {
      var rest := KeptPositions(tokens, m, i + 1);
      KeepLastStep(tokens, m, i);
      if AmongLast(tokens, m, i) {
        PrependPosition(tokens, i, rest, KeepLast(tokens[i + 1..], m));
        at := [i] + rest;
        forall j: nat ensures j in at <==> j == i || j in rest {
        }
      } else {
        at := rest;
        assert [] + KeepLast(tokens[i + 1..], m) == KeepLast(tokens[i + 1..], m);
      }
    }
  }

  lemma PrependPosition(tokens: Classes, i: nat, at: seq<nat>, kept: Classes)
    requires i < |tokens| && SpelledAt(tokens, at, kept) && forall j | 0 <= j < |at| :: i < at[j]
    ensures SpelledAt(tokens, [i] + at, [tokens[i]] + kept)
    ensures forall j | 0 <= j < |[i] + at| :: i <= ([i] + at)[j]
  {
  }

  lemma {:induction false} KeptAreWords(tokens: Classes, m: multiset<string>)
    requires AreWords(tokens)
    ensures AreWords(KeepLast(tokens, m))
  {
    if tokens != [] {
      KeptAreWords(tokens[1..], m);
    }
  }

  /**
    When the survivors are among the input tokens the result holds exactly them, at the
    positions of the last occurrences; otherwise the merge comes back unchanged.
   */
  lemma ReorderRestoresOrder(input: string, merged: string) returns (at: seq<nat>)
    ensures var tokens, survivors := Fields(input), Fields(merged);
            if |survivors| >= 2 && multiset(survivors) <= multiset(tokens) then
              && multiset(Fields(Reordered(input, merged))) == multiset(survivors)
              && SpelledAt(tokens, at, Fields(Reordered(input, merged)))
              && (forall i: nat | i < |tokens| ::
                    i in at <==> multiset(tokens[i + 1..])[tokens[i]] < multiset(survivors)[tokens[i]])
              && Reordered(input, merged) == Join(Fields(Reordered(input, merged)), ' ')
            else Reordered(input, merged) == merged
  {
    var tokens, survivors := Fields(input), Fields(merged);
    var m := multiset(survivors);
    KeepLastContents(tokens, m);
    IntersectionSize(multiset(tokens), m);
    assert |KeepLast(tokens, m)| == |multiset(KeepLast(tokens, m))|;
    assert |survivors| == |m|;
    FieldsAreWords(input);
    KeptAreWords(tokens, m);
    FieldsOfJoin(KeepLast(tokens, m));
    at := KeptPositions(tokens, m, 0);
    assert tokens[0..] == tokens;
  }

  /** The random order in which the merge returns its survivors has no influence. */
  lemma ReorderIsDeterministic(input: string, merged: string, merged': string)
    requires |Fields(merged)| >= 2 && multiset(Fields(merged)) == multiset(Fields(merged'))
    requires multiset(Fields(merged)) <= multiset(Fields(input))
    ensures Reordered(input, merged) == Reordered(input, merged')
  {
    var tokens, m := Fields(input), multiset(Fields(merged));
    KeepLastContents(tokens, m);
    IntersectionSize(multiset(tokens), m);
    assert |KeepLast(tokens, m)| == |multiset(KeepLast(tokens, m))|;
    assert |Fields(merged)| == |m| == |multiset(Fields(merged'))| == |Fields(merged')|;
  }
}
