/**
 The history of a queue, read off its contents before and after each step: what entered and what left.
 */
module QueueHistory {

  /** The elements of one list that are not in another, in order. */
  function Minus<T(==)>(q: seq<T>, r: seq<T>): seq<T>
  {
    if q == [] then [] else Minus(q[..|q| - 1], r) + (if q[|q| - 1] in r then [] else [q[|q| - 1]])
  }

  lemma {:induction false} MinusNone<T>(q: seq<T>, r: seq<T>)
    requires forall t :: t in q ==> t in r
    ensures Minus(q, r) == []
  {
    if q != [] {
      assert q[|q| - 1] in q && forall t :: t in q[..|q| - 1] ==> t in q;
      MinusNone(q[..|q| - 1], r);
    }
  }

  lemma {:induction false} MinusLast<T>(q: seq<T>, t: T, r: seq<T>)
    requires (forall u :: u in q ==> u in r) && t !in r
    ensures Minus(q + [t], r) == [t]
  {
    assert (q + [t])[..|q|] == q;
    MinusNone(q, r);
  }

  lemma {:induction false} MinusFirst<T>(q: seq<T>, r: seq<T>)
    requires q != [] && q[0] !in r && forall u :: u in q[1..] ==> u in r
    ensures Minus(q, r) == [q[0]]
  {
    if |q| == 1 {
      assert q[..0] == [] && Minus([], r) == [];
    } else {
      var front := q[..|q| - 1];
      assert q[|q| - 1] in q[1..] && forall u :: u in front[1..] ==> u in q[1..];
      MinusFirst(front, r);
    }
  }

  /** q becomes q': nothing, one element behind the others, the first one away, or both. */
  ghost predicate ListStep<T(!new)>(q: seq<T>, q': seq<T>)
  {
    || q' == q
    || (exists t :: t !in q && q' == q + [t])
    || (q != [] && q[0] !in q[1..] && q' == q[1..])
    || (exists t :: t !in q && q != [] && q[0] !in q[1..] && q' == q[1..] + [t])
  }

  lemma OneBehind<T>(q: seq<T>, t: T)
    requires t !in q
    ensures Minus(q + [t], q) == [t] && Minus(q, q + [t]) == []
  {
    MinusNone(q, q + [t]);
    MinusLast(q, t, q);
  }

  lemma OneAway<T>(q: seq<T>)
    requires q != [] && q[0] !in q[1..]
    ensures Minus(q[1..], q) == [] && Minus(q, q[1..]) == [q[0]]
  {
    MinusNone(q[1..], q);
    MinusFirst(q, q[1..]);
  }

  lemma OneForAnother<T>(q: seq<T>, t: T)
    requires t !in q && q != [] && q[0] !in q[1..]
    ensures Minus(q[1..] + [t], q) == [t] && Minus(q, q[1..] + [t]) == [q[0]]
  {
    assert q[0] in q && forall u :: u in q[1..] ==> u in q;
    MinusLast(q[1..], t, q);
    MinusFirst(q, q[1..] + [t]);
  }

  /** Then what entered stands behind, and what left stood in front. */
  lemma StepInOrder<T(!new)>(q: seq<T>, q': seq<T>)
    requires ListStep(q, q')
    ensures q + Minus(q', q) == Minus(q, q') + q'
  {
    hide Minus;
    if q' == q {
      MinusNone(q, q);
    } else if exists t :: t !in q && q' == q + [t] {
      var t :| t !in q && q' == q + [t];
      OneBehind(q, t);
    } else if q != [] && q[0] !in q[1..] && q' == q[1..] {
      OneAway(q);
      assert q == [q[0]] + q[1..];
    } else {
      var t :| t !in q && q != [] && q[0] !in q[1..] && q' == q[1..] + [t];
      OneForAnother(q, t);
      assert q == [q[0]] + q[1..];
    }
  }

  lemma Shift<T(!new)>(come: seq<T>, gone: seq<T>, q: seq<T>, q': seq<T>)
    requires come == gone + q && ListStep(q, q')
    ensures come + Minus(q', q) == gone + Minus(q, q') + q'
  {
    StepInOrder(q, q');
    hide ListStep;
    assert come + Minus(q', q) == gone + (q + Minus(q', q));
    assert gone + Minus(q, q') + q' == gone + (Minus(q, q') + q');
  }
}
