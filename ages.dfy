/**
 * The median age of the subscribers (`get_median_age`, bot.py lines
 * 153-169): the ages of the active users that have a stored birthday,
 * sorted, and then the middle one, or the floor of the mean of the two
 * middle ones for an even count. No ages at all gives 0.
 */
module Ages {
  import opened Calendar
  import opened Sets

  predicate Sorted(s: seq<int>) {
    forall i, j :: 0 <= i < j < |s| ==> s[i] <= s[j]
  }

  // ---------------------------------------------------------------------
  // ages.sort()

  /** The first element of a sorted list is the least of its elements. */
  lemma SortedHeadLeast(s: seq<int>, x: int)
    requires Sorted(s) && x in multiset(s)
    ensures s[0] <= x
  {
    var i :| 0 <= i < |s| && s[i] == x;
  }

  lemma SortedCons(x: int, t: seq<int>)
    requires Sorted(t) && (t == [] || x <= t[0])
    ensures Sorted([x] + t)
  {
    var r := [x] + t;
    forall i, j | 0 <= i < j < |r|
      ensures r[i] <= r[j]
    {
      if i == 0 {
        assert x <= t[0] <= t[j - 1];
      } else {
        assert r[i] == t[i - 1] && r[j] == t[j - 1];
      }
    }
  }

  /** One step of the sort: `x` placed before the first element it does not exceed. */
  function Insert(x: int, s: seq<int>): seq<int> {
    if s == [] then [x]
    else if x <= s[0] then [x] + s
    else [s[0]] + Insert(x, s[1..])
  }

  lemma SortedTail(s: seq<int>)
    requires Sorted(s) && s != []
    ensures Sorted(s[1..])
  {
    forall i, j | 0 <= i < j < |s| - 1
      ensures s[1..][i] <= s[1..][j]
    {
      assert s[1..][i] == s[i + 1] && s[1..][j] == s[j + 1];
    }
  }

  /** Inserting keeps the elements and adds `x`. */
  lemma {:induction false} InsertBag(x: int, s: seq<int>)
    ensures multiset(Insert(x, s)) == multiset(s) + multiset{x}
    ensures |Insert(x, s)| == |s| + 1
  {
    if s != [] && x > s[0] {
      InsertBag(x, s[1..]);
      assert s == [s[0]] + s[1..];
    }
  }

  /** Inserting into a sorted list keeps it sorted, and its head is the smaller of `x` and the old head. */
  lemma {:induction false} InsertSorted(x: int, s: seq<int>)
    requires Sorted(s)
    ensures Sorted(Insert(x, s))
    ensures Insert(x, s)[0] == if s != [] && s[0] < x then s[0] else x
  {
    if s == [] {
    } else if x <= s[0] {
      SortedCons(x, s);
    } else {
      SortedTail(s);
      InsertSorted(x, s[1..]);
      InsertBag(x, s[1..]);
      assert s[1..] != [] ==> s[0] <= s[1];
      SortedCons(s[0], Insert(x, s[1..]));
    }
  }

  /** `ages.sort()`: an ascending permutation of the ages. */
  function SortAges(s: seq<int>): (r: seq<int>)
    ensures Sorted(r) && multiset(r) == multiset(s)
    ensures |r| == |s|
  {
    if s == [] then []
    else
      var t := SortAges(s[1..]);
      assert s == [s[0]] + s[1..];
      InsertBag(s[0], t);
      InsertSorted(s[0], t);
      Insert(s[0], t)
  }

  lemma SameTailBag(a: seq<int>, b: seq<int>)
    requires a != [] && b != [] && a[0] == b[0] && multiset(a) == multiset(b)
    ensures multiset(a[1..]) == multiset(b[1..])
  {
    assert a == [a[0]] + a[1..] && b == [b[0]] + b[1..];
    assert multiset(a[1..]) == multiset(a) - multiset{a[0]};
    assert multiset(b[1..]) == multiset(b) - multiset{b[0]};
  }

  /** There is only one ascending arrangement of a multiset of ages. */
  lemma {:induction false} SortedUnique(a: seq<int>, b: seq<int>)
    requires Sorted(a) && Sorted(b) && multiset(a) == multiset(b)
    ensures a == b
    decreases |a|
  {
    assert |a| == |multiset(a)| == |multiset(b)| == |b|;
    if a != [] {
      assert a[0] in multiset(b) && b[0] in multiset(a);
      SortedHeadLeast(a, b[0]);
      SortedHeadLeast(b, a[0]);
      assert a[0] == b[0];
      SameTailBag(a, b);
      var a', b' := a[1..], b[1..];
      SortedTail(a);
      SortedTail(b);
      SortedUnique(a', b');
    }
  }

  // ---------------------------------------------------------------------
  // The middle of the sorted ages

  /**
   * `ages[n // 2]` for an odd count, `(ages[n // 2 - 1] + ages[n // 2]) // 2`
   * for an even one: in both cases a value between the two middle ages,
   * which coincide for an odd count.
   */
  function MedianOfSorted(s: seq<int>): (m: int)
    requires s != []
    ensures s[(|s| - 1) / 2] <= m || !Sorted(s)
    ensures m <= s[|s| / 2] || !Sorted(s)
    ensures |s| % 2 == 1 ==> m == s[|s| / 2]
  {
    var n := |s|;
    if n % 2 == 1 then s[n / 2] else (s[n / 2 - 1] + s[n / 2]) / 2
  }

  function Min(s: seq<int>): (m: int)
    requires s != []
    ensures m in s && forall x :: x in s ==> m <= x
  {
    if |s| == 1 then s[0]
    else
      var rest := Min(s[1..]);
      assert forall x :: x in s ==> x == s[0] || x in s[1..];
      if s[0] <= rest then s[0] else rest
  }

  function Max(s: seq<int>): (m: int)
    requires s != []
    ensures m in s && forall x :: x in s ==> x <= m
  {
    if |s| == 1 then s[0]
    else
      var rest := Max(s[1..]);
      assert forall x :: x in s ==> x == s[0] || x in s[1..];
      if s[0] >= rest then s[0] else rest
  }

  /** The median of a list of ages: 0 for no ages, otherwise the middle of the sorted list. */
  function MedianOf(ages: seq<int>): int {
    if ages == [] then 0 else MedianOfSorted(SortAges(ages))
  }

  lemma SameElements(x: int, a: seq<int>, b: seq<int>)
    requires multiset(a) == multiset(b) && x in a
    ensures x in b
  {
    assert x in multiset(a);
  }

  /** The median lies between the youngest and the oldest age. */
  lemma MedianWithinRange(ages: seq<int>)
    requires ages != []
    ensures Min(ages) <= MedianOf(ages) <= Max(ages)
  {
    var s := SortAges(ages);
    var i, j := (|s| - 1) / 2, |s| / 2;
    assert 0 <= i <= j < |s|;
    SameElements(s[i], s, ages);
    SameElements(s[j], s, ages);
    assert Min(ages) <= s[i] && s[j] <= Max(ages);
    assert s[i] <= MedianOfSorted(s) <= s[j];
  }

  /** The median depends only on which ages occur how often, not on their order. */
  lemma MedianOfPermutation(a: seq<int>, b: seq<int>)
    requires multiset(a) == multiset(b)
    ensures MedianOf(a) == MedianOf(b)
  {
    SortedUnique(SortAges(a), SortAges(b));
    assert |a| == |multiset(a)| == |multiset(b)| == |b|;
  }

  // ---------------------------------------------------------------------
  // The ages of the active users

  /** The age a user contributes: the completed age if a birthday is stored, nothing otherwise. */
  function AgeOf(uid: int, birthdays: map<int, Date>, today: Date): multiset<int> {
    if uid in birthdays then multiset{AgeOn(birthdays[uid], today)} else multiset{}
  }

  /** The multiset of ages the loop over `users` appends, whatever the iteration order. */
  ghost function AgeBag(users: set<int>, birthdays: map<int, Date>, today: Date): multiset<int>
    decreases |users|
  {
    if users == {} then multiset{}
    else
      NonEmpty(users);
      var u :| u in users;
      AgeBag(users - {u}, birthdays, today) + AgeOf(u, birthdays, today)
  }

  /** Taking any one user out of the loop leaves the ages of the others. */
  lemma {:induction false} AgeBagRemove(users: set<int>, birthdays: map<int, Date>, today: Date, x: int)
    requires x in users
    ensures AgeBag(users, birthdays, today) == AgeBag(users - {x}, birthdays, today) + AgeOf(x, birthdays, today)
    decreases |users|
  {
    var u :| u in users && AgeBag(users, birthdays, today)
                           == AgeBag(users - {u}, birthdays, today) + AgeOf(u, birthdays, today);
    if u != x {
      AgeBagRemove(users - {u}, birthdays, today, x);
      AgeBagRemove(users - {x}, birthdays, today, u);
      assert users - {u} - {x} == users - {x} - {u};
    }
  }

  lemma IntersectWithout(users: set<int>, keys: set<int>, u: int)
    requires u in users
    ensures |users * keys| == |(users - {u}) * keys| + (if u in keys then 1 else 0)
  {
    var rest := (users - {u}) * keys;
    if u in keys {
      assert users * keys == rest + {u};
      assert u !in rest;
    } else {
      assert users * keys == rest;
    }
  }

  /** One age per active user with a stored birthday. */
  lemma {:induction false} AgeBagSize(users: set<int>, birthdays: map<int, Date>, today: Date)
    ensures |AgeBag(users, birthdays, today)| == |users * birthdays.Keys|
    decreases |users|
  {
    if users != {} {
      NonEmpty(users);
      var u :| u in users;
      AgeBagRemove(users, birthdays, today, u);
      AgeBagSize(users - {u}, birthdays, today);
      IntersectWithout(users, birthdays.Keys, u);
      assert |AgeOf(u, birthdays, today)| == if u in birthdays then 1 else 0;
    }
  }

  /** Some list of the ages in a bag, in no particular order. */
  ghost function BagList(b: multiset<int>): (s: seq<int>)
    ensures multiset(s) == b
    decreases |b|
  {
    if b == multiset{} then []
    else
      NonEmptyBag(b);
      var x :| x in b;
      [x] + BagList(b - multiset{x})
  }

  /** The median of a bag of ages. */
  ghost function BagMedian(b: multiset<int>): int {
    MedianOf(BagList(b))
  }

  /** The loop of `get_median_age`: one age per active user with a stored birthday. */
  method CollectAges(active: set<int>, birthdays: map<int, Date>, today: Date) returns (ages: seq<int>)
    ensures multiset(ages) == AgeBag(active, birthdays, today)
  {
    ages := [];
    var rest := active;
    while rest != {}
      invariant multiset(ages) + AgeBag(rest, birthdays, today) == AgeBag(active, birthdays, today)
      decreases |rest|
    {
      NonEmpty(rest);
      var uid :| uid in rest;
      AgeBagRemove(rest, birthdays, today, uid);
      if uid in birthdays {
        ages := ages + [AgeOn(birthdays[uid], today)];
      }
      rest := rest - {uid};
    }
  }

  /** `get_median_age`: 0 without active users or ages, otherwise the middle of the sorted ages. */
  method MedianAge(active: set<int>, birthdays: map<int, Date>, today: Date) returns (median: int)
    ensures median == BagMedian(AgeBag(active, birthdays, today))
  {
    if active == {} {
      return 0;
    }
    var ages := CollectAges(active, birthdays, today);
    if ages == [] {
      return 0;
    }
    var sorted := SortAges(ages);
    median := MedianOfSorted(sorted);
    MedianOfPermutation(ages, BagList(AgeBag(active, birthdays, today)));
  }

  /** No active user with a stored birthday: the median is 0. */
  lemma MedianWithoutAges(active: set<int>, birthdays: map<int, Date>, today: Date)
    requires active * birthdays.Keys == {}
    ensures BagMedian(AgeBag(active, birthdays, today)) == 0
  {
    AgeBagSize(active, birthdays, today);
  }

  /** Some active user has a stored birthday: there is at least one age. */
  lemma AgeBagNonEmpty(active: set<int>, birthdays: map<int, Date>, today: Date)
    requires active * birthdays.Keys != {}
    ensures AgeBag(active, birthdays, today) != multiset{}
  {
    NonEmpty(active * birthdays.Keys);
    var u :| u in active * birthdays.Keys;
    assert |active * birthdays.Keys| >= 1;
    AgeBagSize(active, birthdays, today);
  }

  lemma MedianBetweenMembers(s: seq<int>)
    requires s != []
    ensures Min(s) in multiset(s) && Max(s) in multiset(s) && Min(s) <= MedianOf(s) <= Max(s)
  {
    MedianWithinRange(s);
  }

  /** The median of a bag of ages lies between two of its ages. */
  lemma BagMedianWithin(b: multiset<int>)
    requires b != multiset{}
    ensures exists lo, hi :: lo in b && hi in b && lo <= BagMedian(b) <= hi
  {
    var s := BagList(b);
    MedianBetweenMembers(s);
    assert Min(s) in b && Max(s) in b && Min(s) <= BagMedian(b) <= Max(s);
  }

  /** Otherwise the median lies between the youngest and the oldest active user's age. */
  lemma MedianBetweenAges(active: set<int>, birthdays: map<int, Date>, today: Date)
    requires active * birthdays.Keys != {}
    ensures var b := AgeBag(active, birthdays, today);
      exists lo, hi :: lo in b && hi in b && lo <= BagMedian(b) <= hi
  {
    AgeBagNonEmpty(active, birthdays, today);
    BagMedianWithin(AgeBag(active, birthdays, today));
  }
}
