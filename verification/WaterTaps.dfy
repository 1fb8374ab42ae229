/**
 The two water taps (test/watertap.c): each student in the queue goes to the tap that has given less so far, and how far
 this greedy choice can be from the best one.
 */
module WaterTaps {
  import DecimalNumbers

  datatype Tap = One | Two

  function Max(a: int, b: int): int
  {
    if a >= b then a else b
  }

  function Sum(vs: seq<nat>): nat
  {
    if vs == [] then 0 else Sum(vs[..|vs| - 1]) + vs[|vs| - 1]
  }

  function Largest(vs: seq<nat>): nat
  {
    if vs == [] then 0 else Max(Largest(vs[..|vs| - 1]), vs[|vs| - 1])
  }

  /** What tap t gives in all when student number i goes to choice[i]. */
  function Load(vs: seq<nat>, choice: seq<Tap>, t: Tap): (n: nat)
    requires |choice| == |vs|
  {
    if vs == [] then 0
    else
      Load(vs[..|vs| - 1], choice[..|vs| - 1], t) + (if choice[|vs| - 1] == t then vs[|vs| - 1] else 0)
  }

  /** How much the busier tap gives under a choice. */
  function Busier(vs: seq<nat>, choice: seq<Tap>): nat
    requires |choice| == |vs|
  {
    Max(Load(vs, choice, One), Load(vs, choice, Two))
  }

  // ---------- what every choice of taps must give ----------

  lemma {:induction false} LoadsAddUp(vs: seq<nat>, choice: seq<Tap>)
    requires |choice| == |vs|
    ensures Load(vs, choice, One) + Load(vs, choice, Two) == Sum(vs)
  {
    if vs != [] {
      LoadsAddUp(vs[..|vs| - 1], choice[..|vs| - 1]);
    }
  }

  lemma {:induction false} SomeTapServesLargest(vs: seq<nat>, choice: seq<Tap>)
    requires |choice| == |vs|
    ensures Largest(vs) <= Busier(vs, choice)
  {
    if vs != [] {
      SomeTapServesLargest(vs[..|vs| - 1], choice[..|vs| - 1]);
    }
  }

  // ---------- the greedy choice ----------

  /** Each student went to the tap that had given less, to tap 1 if both had given the same. */
  ghost predicate Greedy(vs: seq<nat>, choice: seq<Tap>)
    requires |choice| == |vs|
  {
    forall i :: 0 <= i < |vs| ==> GreedyAt(vs, choice, i)
  }

  ghost predicate GreedyAt(vs: seq<nat>, choice: seq<Tap>, i: nat)
    requires i < |choice| == |vs|
  {
    choice[i] == One <==> Load(vs[..i], choice[..i], One) <= Load(vs[..i], choice[..i], Two)
  }

  lemma GreedyPrefix(vs: seq<nat>, choice: seq<Tap>)
    requires |choice| == |vs| > 0 && Greedy(vs, choice)
    ensures Greedy(vs[..|vs| - 1], choice[..|vs| - 1]) && GreedyAt(vs, choice, |vs| - 1)
  {
    var n := |vs| - 1;
    forall i | 0 <= i < n
      ensures GreedyAt(vs[..n], choice[..n], i)
    {
      assert GreedyAt(vs, choice, i);
      assert vs[..n][..i] == vs[..i] && choice[..n][..i] == choice[..i];
    }
  }

  lemma GreedyLonger(vs: seq<nat>, choice: seq<Tap>, v: nat, t: Tap)
    requires |choice| == |vs| && Greedy(vs, choice)
    requires t == One <==> Load(vs, choice, One) <= Load(vs, choice, Two)
    ensures Greedy(vs + [v], choice + [t])
  {
    var vs', choice' := vs + [v], choice + [t];
    forall i | 0 <= i < |vs'|
      ensures GreedyAt(vs', choice', i)
    {
      assert vs'[..i] == vs[..i] && choice'[..i] == choice[..i];
      if i < |vs| {
        assert GreedyAt(vs, choice, i);
      } else {
        assert vs[..i] == vs && choice[..i] == choice;
      }
    }
  }

  /** At all times the taps differ by at most the largest volume served. */
  lemma {:induction false} TapsStayClose(vs: seq<nat>, choice: seq<Tap>)
    requires |choice| == |vs| && Greedy(vs, choice)
    ensures Load(vs, choice, One) <= Load(vs, choice, Two) + Largest(vs)
    ensures Load(vs, choice, Two) <= Load(vs, choice, One) + Largest(vs)
  {
    if vs != [] {
      var n := |vs| - 1;
      GreedyPrefix(vs, choice);
      TapsStayClose(vs[..n], choice[..n]);
    }
  }

  /** The greedy choice is at most half as much again as any choice whatever. */
  lemma GreedyIsNearBest(vs: seq<nat>, choice: seq<Tap>, other: seq<Tap>)
    requires |choice| == |vs| == |other| && Greedy(vs, choice)
    ensures 2 * Busier(vs, choice) <= 3 * Busier(vs, other)
  {
    TapsStayClose(vs, choice);
    LoadsAddUp(vs, choice);
    LoadsAddUp(vs, other);
    SomeTapServesLargest(vs, other);
  }

  lemma LoadLonger(vs: seq<nat>, choice: seq<Tap>, v: nat, t: Tap)
    requires |choice| == |vs|
    ensures Load(vs + [v], choice + [t], t) == Load(vs, choice, t) + v
    ensures forall u :: u != t ==> Load(vs + [v], choice + [t], u) == Load(vs, choice, u)
  {
    assert (vs + [v])[..|vs|] == vs && (choice + [t])[..|vs|] == choice;
  }

  lemma NobodyServed(t: Tap)
    ensures Load([], [], t) == 0 && Greedy([], [])
  {
  }

  /** The bound is met: volumes 1, 1, 2 leave the busier tap at 3, where 2 would do. */
  lemma BoundIsTight()
    ensures Greedy([1, 1, 2], [One, Two, One])
    ensures Busier([1, 1, 2], [One, Two, One]) == 3 && Busier([1, 1, 2], [One, One, Two]) == 2
  {
    hide Load, Greedy;
    NobodyServed(One);
    NobodyServed(Two);
    GreedyServes([], [], 1);
    assert [] + [1] == [1] && [] + [One] == [One];
    GreedyServes([1], [One], 1);
    LoadLonger([1], [One], 1, One);
    assert [1] + [1] == [1, 1] && [One] + [Two] == [One, Two] && [One] + [One] == [One, One];
    GreedyServes([1, 1], [One, Two], 2);
    LoadLonger([1, 1], [One, One], 2, Two);
    assert [1, 1] + [2] == [1, 1, 2];
    assert [One, Two] + [One] == [One, Two, One] && [One, One] + [Two] == [One, One, Two];
  }

  /** The student with volume v can go to tap t, and then only t's load grows, by v. */
  ghost predicate Goes(vs: seq<nat>, choice: seq<Tap>, v: nat, t: Tap)
    requires |choice| == |vs|
  {
    && Greedy(vs + [v], choice + [t])
    && Load(vs + [v], choice + [t], One) == Load(vs, choice, One) + (if t == One then v else 0)
    && Load(vs + [v], choice + [t], Two) == Load(vs, choice, Two) + (if t == Two then v else 0)
  }

  /** One more student. */
  lemma GreedyServes(vs: seq<nat>, choice: seq<Tap>, v: nat)
    requires |choice| == |vs| && Greedy(vs, choice)
    ensures Load(vs, choice, One) <= Load(vs, choice, Two) ==> Goes(vs, choice, v, One)
    ensures Load(vs, choice, One) > Load(vs, choice, Two) ==> Goes(vs, choice, v, Two)
  {
    var t := if Load(vs, choice, One) <= Load(vs, choice, Two) then One else Two;
    GreedyLonger(vs, choice, v, t);
    LoadLonger(vs, choice, v, t);
  }

  // ---------- the program ----------

  /** The part of a student's file before the star that marks the end of the queue. */
  function BeforeStar(text: string): (s: string)
    ensures s <= text && '*' !in s
    ensures |s| < |text| ==> text[|s|] == '*'
  {
    if text == [] || text[0] == '*' then [] else [text[0]] + BeforeStar(text[1..])
  }

  /** None of the first k characters is a star. */
  ghost predicate NoStar(text: string, k: nat)
    requires k <= |text|
  {
    forall j :: 0 <= j < k ==> text[j] != '*'
  }

  lemma {:induction false} BeforeStarIs(text: string, k: nat)
    requires k <= |text| && NoStar(text, k) && (k < |text| ==> text[k] == '*')
    ensures BeforeStar(text) == text[..k]
  {
    if k > 0 {
      BeforeStarIs(text[1..], k - 1);
      assert text[..k] == [text[0]] + text[1..][..k - 1];
    }
  }

  /** Digits, possibly with a star behind them. */
  ghost predicate IsStudent(text: string)
  {
    DecimalNumbers.AllDigits(BeforeStar(text))
  }

  /** What c - '0' is for any character: a char is signed. */
  function Weight(c: char): int
  {
    var n := c as int % 256;
    (if n < 128 then n else n - 256) - '0' as int
  }

  /** What the accumulation makes of any characters. */
  function Accumulated(s: string): int
  {
    if s == [] then 0 else 10 * Accumulated(s[..|s| - 1]) + Weight(s[|s| - 1])
  }

  /** Of digits it makes the number they stand for. */
  lemma {:induction false} AccumulatedDigits(s: string)
    requires DecimalNumbers.AllDigits(s)
    ensures Accumulated(s) == DecimalNumbers.Value(s)
  {
    if s != [] {
      assert s[|s| - 1] in s;
      AccumulatedDigits(s[..|s| - 1]);
    }
  }

  /** Reads one student's volume, and whether the queue ends here. */
  method ReadVolume(text: string) returns (volume: int, isEnd: bool)
    ensures volume == Accumulated(BeforeStar(text)) && (isEnd <==> '*' in text)
    ensures IsStudent(text) ==> volume == DecimalNumbers.Value(BeforeStar(text))
  {
    var i := 0;
    volume, isEnd := 0, false;
    hide DecimalNumbers.Value, DecimalNumbers.AllDigits, BeforeStar;
    if IsStudent(text) { AccumulatedDigits(BeforeStar(text)); }
    while i < |text|
      invariant i <= |text| && !isEnd && NoStar(text, i) && volume == Accumulated(text[..i])
    {
      if text[i] == '*' {
        BeforeStarIs(text, i);
        isEnd := true;
        return;
      }
      assert text[..i + 1][..i] == text[..i];
      volume := volume * 10 + Weight(text[i]);
      i := i + 1;
    }
    assert text[..i] == text;
    BeforeStarIs(text, i);
  }

  /** The volumes that are served: those of the students up to the end of the queue, zeros left out. */
  ghost function Served(students: seq<string>): seq<nat>
    requires forall s <- students :: IsStudent(s)
  {
    if students == [] then []
    else
      assert IsStudent(students[0]);
      if '*' in students[0] then ServedOne(students[0]) else ServedOne(students[0]) + Served(students[1..])
  }

  lemma ServedFirst(students: seq<string>)
    requires (forall s <- students :: IsStudent(s)) && students != [] && IsStudent(students[0])
    ensures Served(students) == ServedOne(students[0]) + (if '*' in students[0] then [] else Served(students[1..]))
  {
    hide ServedOne, IsStudent;
  }

  lemma ServedFrom(students: seq<string>, i: nat, vs: seq<nat>)
    requires (forall s <- students :: IsStudent(s)) && i < |students| && IsStudent(students[i])
    ensures var v := DecimalNumbers.Value(BeforeStar(students[i]));
      vs + Served(students[i..]) ==
        (if v == 0 then vs else vs + [v]) + (if '*' in students[i] then [] else Served(students[i + 1..]))
  {
    hide DecimalNumbers.Value, BeforeStar, Served;
    var v := DecimalNumbers.Value(BeforeStar(students[i]));
    assert students[i..][0] == students[i] && students[i..][1..] == students[i + 1..];
    var later := if '*' in students[i] then [] else Served(students[i + 1..]);
    ServedFirst(students[i..]);
    assert vs + ServedOne(students[i]) == if v == 0 then vs else vs + [v];
    assert vs + (ServedOne(students[i]) + later) == (vs + ServedOne(students[i])) + later;
  }

  ghost function ServedOne(text: string): seq<nat>
    requires IsStudent(text)
  {
    var v := DecimalNumbers.Value(BeforeStar(text));
    if v == 0 then [] else [v]
  }

  /** What the students ask for. */
  ghost function Volumes(students: seq<string>): seq<nat>
    requires forall s <- students :: IsStudent(s)
  {
    seq(|students|, i requires 0 <= i < |students| =>
      assert IsStudent(students[i]); DecimalNumbers.Value(BeforeStar(students[i])))
  }

  function NonZero(vs: seq<nat>): (r: seq<nat>)
    ensures multiset(r) == multiset(vs)[0 := 0]
  {
    if vs == [] then []
    else
      assert vs == [vs[0]] + vs[1..];
      (if vs[0] == 0 then [] else [vs[0]]) + NonZero(vs[1..])
  }

  lemma NonZeroFirst(v: nat, vs: seq<nat>)
    ensures NonZero([v] + vs) == (if v == 0 then [] else [v]) + NonZero(vs)
  {
    assert ([v] + vs)[1..] == vs;
  }

  lemma VolumesFirst(students: seq<string>)
    requires (forall s <- students :: IsStudent(s)) && students != [] && IsStudent(students[0])
    ensures NonZero(Volumes(students)) == ServedOne(students[0]) + NonZero(Volumes(students[1..]))
  {
    hide DecimalNumbers.AllDigits, DecimalNumbers.Value, BeforeStar, NonZero;
    var v := DecimalNumbers.Value(BeforeStar(students[0]));
    assert Volumes(students) == [v] + Volumes(students[1..]);
    NonZeroFirst(v, Volumes(students[1..]));
  }

  lemma NobodyAsks()
    ensures NonZero(Volumes([])) == [] && Served([]) == []
  {
  }

  /** Exactly the students up to the first one with a star are served, except those who ask for nothing. */
  lemma {:induction false} ServedExact(students: seq<string>, n: nat)
    requires (forall s <- students :: IsStudent(s)) && n <= |students|
    requires n > 0 ==> forall i :: 0 <= i < n - 1 ==> '*' !in students[i]
    requires n < |students| ==> n > 0 && '*' in students[n - 1]
    ensures Served(students) == NonZero(Volumes(students[..n]))
  {
    hide IsStudent, ServedOne, Served, Volumes, NonZero;
    NobodyAsks();
    if n == 0 {
      assert students[..0] == [];
    } else {
      assert IsStudent(students[0]);
      ServedFirst(students);
      VolumesFirst(students[..n]);
      assert students[..n][1..] == students[1..][..n - 1];
      if '*' in students[0] {
        assert n == 1 && students[1..][..0] == [];
      } else {
        ServedExact(students[1..], n - 1);
      }
    }
  }

  /** One queue of students; what goes to the taps and to the result log. */
  method ServeQueue(students: seq<string>) returns (tap1: nat, tap2: nat, log: seq<Tap>)
    requires forall s <- students :: IsStudent(s)
    ensures |log| == |Served(students)| && Greedy(Served(students), log)
    ensures tap1 == Load(Served(students), log, One) && tap2 == Load(Served(students), log, Two)
    ensures tap1 <= tap2 + Largest(Served(students)) && tap2 <= tap1 + Largest(Served(students))
    ensures forall other: seq<Tap> :: |other| == |log| ==> 2 * Max(tap1, tap2) <= 3 * Busier(Served(students), other)
  {
    hide Load, Greedy, Served, DecimalNumbers.Value, BeforeStar, IsStudent, Accumulated, Largest, Busier;
    tap1, tap2, log := 0, 0, [];
    ghost var vs: seq<nat> := [];
    NobodyServed(One);
    NobodyServed(Two);
    ServedEnds(students);
    var i, isEnd := 0, false;
    while i < |students| && !isEnd
      invariant i <= |students| && |log| == |vs| && Greedy(vs, log)
      invariant tap1 == Load(vs, log, One) && tap2 == Load(vs, log, Two)
      invariant Served(students) == if isEnd then vs else vs + Served(students[i..])
    {
      var volume;
      volume, isEnd := ReadVolume(students[i]);
      ServedFrom(students, i, vs);
      if volume != 0 {
        GreedyServes(vs, log, volume);
        if tap1 <= tap2 {
          tap1 := tap1 + volume;
          log := log + [One];
        } else {
          tap2 := tap2 + volume;
          log := log + [Two];
        }
        vs := vs + [volume];
      }
      i := i + 1;
    }
    assert Served(students) == vs by {
      if !isEnd { assert students[i..] == []; }
    }
    TapsStayClose(vs, log);
    AllNearBest(vs, log);
  }

  lemma ServedEnds(students: seq<string>)
    requires forall s <- students :: IsStudent(s)
    ensures Served([]) == [] && [] + Served(students[0..]) == Served(students)
  {
    assert students[0..] == students;
  }

  lemma AllNearBest(vs: seq<nat>, choice: seq<Tap>)
    requires |choice| == |vs| && Greedy(vs, choice)
    ensures forall other: seq<Tap> :: |other| == |choice| ==>
      2 * Max(Load(vs, choice, One), Load(vs, choice, Two)) <= 3 * Busier(vs, other)
  {
    hide Load, Greedy;
    forall other: seq<Tap> | |other| == |choice|
      ensures 2 * Max(Load(vs, choice, One), Load(vs, choice, Two)) <= 3 * Busier(vs, other)
    {
      GreedyIsNearBest(vs, choice, other);
    }
  }
}
