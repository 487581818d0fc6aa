/** The observer list of the chat system as a value: what addObserver,
    removeObserver, broadcast and generateClientID do to (or read from) the
    ordered list of registered clients. The class ChatSystem in module Chat is
    proved against these functions; the lemmas here state what they promise. */
module Registry {

  /** One write on a client's connection: who received which text. */
  datatype Delivery<T> = Delivery(recipient: T, text: string)

  /** removeObserver: drop the first entry equal to `x`, keep the rest in order. */
  function RemoveFirst<T(==)>(s: seq<T>, x: T): (r: seq<T>)
    ensures |r| == if x in s then |s| - 1 else |s|
  {
    if s == [] then []
    else if s[0] == x then s[1..]
    else [s[0]] + RemoveFirst(s[1..], x)
  }

  /** broadcast: one delivery of `message` per registered entry, in list order. */
  function Fanout<T>(s: seq<T>, message: string): (r: seq<Delivery<T>>)
    ensures |r| == |s|
    ensures forall k :: 0 <= k < |s| ==> r[k] == Delivery(s[k], message)
  {
    if s == [] then [] else [Delivery(s[0], message)] + Fanout(s[1..], message)
  }

  /** Broadcasting to a longer list delivers to the first part, then to the rest. */
  lemma FanoutAppend<T>(a: seq<T>, b: seq<T>, message: string)
    ensures Fanout(a + b, message) == Fanout(a, message) + Fanout(b, message)
  {
  }

  /** generateClientID: the ID handed to the next client is derived from the
      population alone. */
  function NextId<T>(s: seq<T>): (id: nat)
    ensures id >= 1
  {
    |s| + 1
  }

  /** If the observer is not registered, removing it changes nothing. */
  lemma {:induction false} RemoveAbsent<T>(s: seq<T>, x: T)
    requires x !in s
    ensures RemoveFirst(s, x) == s
  {
    if s != [] {
      assert s == [s[0]] + s[1..];
      RemoveAbsent(s[1..], x);
    }
  }

  /** If `k` is the first position holding `x`, exactly that entry goes and
      the entries before and after it keep their order. */
  lemma {:induction false} RemoveAt<T>(s: seq<T>, x: T, k: nat)
    requires k < |s| && s[k] == x && x !in s[..k]
    ensures RemoveFirst(s, x) == s[..k] + s[k + 1..]
  {
    if k > 0 {
      assert s[0] in s[..k];
      assert s[1..][..k - 1] == s[1..k];
      RemoveAt(s[1..], x, k - 1);
    }
  }

  /** removeObserver takes away exactly one copy of the observer when it is
      present, and every other entry stays as often as it was. */
  lemma {:induction false} RemoveMultiset<T>(s: seq<T>, x: T)
    ensures multiset(RemoveFirst(s, x)) == multiset(s) - multiset{x}
  {
    if s != [] {
      assert s == [s[0]] + s[1..];
      RemoveMultiset(s[1..], x);
    }
  }

  /** An entry other than the removed observer is still registered afterwards. */
  lemma RemoveKeepsOthers<T>(s: seq<T>, x: T, y: T)
    requires y in s && y != x
    ensures y in RemoveFirst(s, x)
  {
    RemoveMultiset(s, x);
    assert y in multiset(s);
  }

  /** Removing an observer never adds an entry. */
  lemma RemoveKeepsNothingNew<T>(s: seq<T>, x: T)
    ensures forall y :: y in RemoveFirst(s, x) ==> y in s
  {
    RemoveMultiset(s, x);
    forall y | y in RemoveFirst(s, x) ensures y in s {
      assert y in multiset(RemoveFirst(s, x));
    }
  }

  /** No entry occurs twice. */
  predicate Distinct<T(==)>(s: seq<T>) {
    forall i, j :: 0 <= i < j < |s| ==> s[i] != s[j]
  }

  /** In a list without repeats, removing an observer removes it for good and
      leaves a list without repeats. */
  lemma {:induction false} RemoveDistinct<T>(s: seq<T>, x: T)
    requires Distinct(s)
    ensures x !in RemoveFirst(s, x) && Distinct(RemoveFirst(s, x))
  {
    if s != [] {
      assert Distinct(s[1..]);
      if s[0] != x {
        RemoveDistinct(s[1..], x);
        RemoveKeepsNothingNew(s[1..], x);
        var r := RemoveFirst(s, x);
        assert r == [s[0]] + RemoveFirst(s[1..], x);
        assert s[0] !in s[1..];
        forall i, j | 0 <= i < j < |r| ensures r[i] != r[j] {
          if i == 0 {
            assert r[j] in RemoveFirst(s[1..], x);
          }
        }
      } else {
        assert s[0] !in s[1..];
      }
    }
  }

  /** A client registered once is gone after removing it. */
  lemma RemoveOnlyCopy<T>(s: seq<T>, x: T)
    requires multiset(s)[x] == 1
    ensures x !in RemoveFirst(s, x)
  {
    RemoveMultiset(s, x);
    assert multiset(RemoveFirst(s, x))[x] == 0;
  }

  /** removeObserver undoes addObserver when the observer was not registered. */
  lemma {:induction false} RemoveUndoesAdd<T>(s: seq<T>, x: T)
    requires x !in s
    ensures RemoveFirst(s + [x], x) == s
  {
    assert (s + [x])[..|s|] == s;
    RemoveAt(s + [x], x, |s|);
  }

  /** The ID reuse of generateClientID: let `y` join after the list `s` (so it
      got ID NextId(s)), and let any earlier client `x` leave. The next client
      is then given the same ID as `y`, while `y` is still registered. */
  lemma IdRepeatsAfterLeave<T>(s: seq<T>, x: T, y: T)
    requires x in s && x != y
    ensures y in RemoveFirst(s + [y], x)
    ensures NextId(RemoveFirst(s + [y], x)) == NextId(s)
  {
    RemoveKeepsOthers(s + [y], x, y);
  }

  /** Removing other clients never removes a client nobody removes: a
      rejected client, whose own read loop never runs, stays forever. */
  lemma {:induction false} NeverRemoved<T>(s: seq<T>, leavers: seq<T>, c: T)
    requires c in s && c !in leavers
    ensures c in RemoveEach(s, leavers)
    decreases |leavers|
  {
    if leavers != [] {
      RemoveKeepsOthers(s, leavers[0], c);
      NeverRemoved(RemoveFirst(s, leavers[0]), leavers[1..], c);
    }
  }

  /** The list after the clients in `leavers` have left, one after the other. */
  function RemoveEach<T(==)>(s: seq<T>, leavers: seq<T>): (r: seq<T>)
    ensures |r| >= |s| - |leavers|
    decreases |leavers|
  {
    if leavers == [] then s else RemoveEach(RemoveFirst(s, leavers[0]), leavers[1..])
  }
}
