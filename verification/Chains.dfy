/** Chains of links that end with nil: free lists and process queues. */
module Chains {
  import opened Basics

  /** The chain from `head` through the `next` links is s. */
  ghost predicate Chained<T>(next: map<T, T>, nil: T, head: T, s: seq<T>) {
    && head == (if s == [] then nil else s[0])
    && forall i | 0 <= i < |s| :: LinkAt(next, nil, s, i)
  }

  ghost predicate LinkAt<T>(next: map<T, T>, nil: T, s: seq<T>, i: nat)
    requires i < |s|
  {
    s[i] != nil && s[i] in next && next[s[i]] == if i + 1 < |s| then s[i + 1] else nil
  }

  lemma EmptyIffNil<T>(next: map<T, T>, nil: T, head: T, s: seq<T>)
    requires Chained(next, nil, head, s)
    ensures head == nil <==> s == []
  {
    assert s != [] ==> LinkAt(next, nil, s, 0);
  }

  lemma OnlyLinks<T>(next: map<T, T>, nil: T, head: T, s: seq<T>, a: T)
    requires Chained(next, nil, head, s) && a !in next
    ensures a !in s
  {
    forall i | 0 <= i < |s|
      ensures s[i] != a
    {
      assert LinkAt(next, nil, s, i);
    }
  }

  lemma Elsewhere<T>(next: map<T, T>, nil: T, head: T, s: seq<T>, a: T, b: T)
    requires Chained(next, nil, head, s) && a !in s
    ensures Chained(next[a := b], nil, head, s)
  {
    var after := next[a := b];
    forall i | 0 <= i < |s|
      ensures LinkAt(after, nil, s, i)
    {
      assert LinkAt(next, nil, s, i) && s[i] in s;
    }
  }

  lemma Tail<T>(next: map<T, T>, nil: T, head: T, s: seq<T>)
    requires Chained(next, nil, head, s) && Distinct(s) && s != []
    ensures head == s[0] != nil && head in next && (next[head] == nil <==> |s| == 1)
    ensures Chained(next[head := nil], nil, next[head], s[1..])
  {
    assert LinkAt(next, nil, s, 0);
    var after, t := next[head := nil], s[1..];
    forall i | 0 <= i < |t|
      ensures LinkAt(after, nil, t, i)
    {
      assert LinkAt(next, nil, s, i + 1) && s[i + 1] != s[0];
    }
    assert t != [] ==> LinkAt(after, nil, t, 0);
  }

  lemma Push<T>(next: map<T, T>, nil: T, head: T, s: seq<T>, a: T)
    requires Chained(next, nil, head, s) && a != nil && a !in s
    ensures Chained(next[a := head], nil, a, [a] + s)
  {
    var after, t := next[a := head], [a] + s;
    forall i | 0 <= i < |t|
      ensures LinkAt(after, nil, t, i)
    {
      if i > 0 {
        assert LinkAt(next, nil, s, i - 1) && s[i - 1] in s;
      }
    }
  }

  lemma Append<T>(next: map<T, T>, nil: T, head: T, s: seq<T>, a: T)
    requires Chained(next, nil, head, s) && Distinct(s) && a !in s
    requires a != nil && a in next && next[a] == nil
    ensures if s == [] then Chained(next, nil, a, s + [a]) else Chained(next[s[|s| - 1] := a], nil, head, s + [a])
  {
    if s == [] {
      assert s + [a] == [a];
    } else {
      var after, t := next[s[|s| - 1] := a], s + [a];
      forall i | 0 <= i < |t|
        ensures LinkAt(after, nil, t, i)
      {
        if i < |s| {
          assert LinkAt(next, nil, s, i) && s[i] in s;
        }
      }
    }
  }
}
