/** A run in which a pair loses its log to exactly 128 others, all within one second, although only one
    of them asked after it: the bound of the limiter's memory is tight, and counting the pairs seen
    since the pair's last request would not do. */
module RateCrowd {
  import opened Sequences
  import opened RateLimit
  import opened RateMemory

  const LIMIT: nat := 5

  function Name(i: nat): string
    requires i < 200
  {
    [(i + 1) as char]
  }

  function Ask(i: nat): Request
    requires i < 200
  {
    Request(Name(i), Login, 0)
  }

  function Zeros(n: nat): (times: seq<nat>)
    ensures |times| == n
  {
    seq(n, _ => 0)
  }

  function EntryOf(i: nat, count: nat): Entry
    requires i < 200
  {
    Entry(Name(i), Login, Zeros(count), 0, true)
  }

  /** The table after one request of each of the first n names: it fills up from the last slot on. */
  function Filling(n: nat): (entries: seq<Entry>)
    requires n <= TABLE_SIZE
    ensures |entries| == TABLE_SIZE
    ensures forall j :: 0 <= j < TABLE_SIZE ==>
              entries[j] == if j >= TABLE_SIZE - n then EntryOf(TABLE_SIZE - 1 - j, 1) else UNUSED
  {
    seq(TABLE_SIZE, j requires 0 <= j < TABLE_SIZE =>
          if j >= TABLE_SIZE - n then EntryOf(TABLE_SIZE - 1 - j, 1) else UNUSED)
  }

  function FirstAsks(n: nat): (requests: seq<Request>)
    requires n < 200
    ensures |requests| == n
  {
    if n == 0 then [] else FirstAsks(n - 1) + [Ask(n - 1)]
  }

  /** Every other slot filled once, and then the name of the last slot asking again and again. */
  function BusyAsks(count: nat): (requests: seq<Request>)
    ensures |requests| == TABLE_SIZE - 1 + count
  {
    if count == 0 then FirstAsks(TABLE_SIZE - 1)
    else BusyAsks(count - 1) + [Ask(TABLE_SIZE - 1)]
  }

  function BusyTable(count: nat): (entries: seq<Entry>)
    requires count > 0
    ensures |entries| == TABLE_SIZE
  {
    Filling(TABLE_SIZE - 1)[0 := EntryOf(TABLE_SIZE - 1, count)]
  }

  lemma {:induction false} FirstUnusedSlot(n: nat, m: nat)
    requires n < TABLE_SIZE && 0 < m <= TABLE_SIZE
    ensures Replacement(Filling(n), m) == if m <= TABLE_SIZE - n then m - 1 else TABLE_SIZE - 1 - n
  {
    hide Filling, Name, Zeros;
    if m > 1 {
      FirstUnusedSlot(n, m - 1);
    }
  }

  /** Of entries last seen in the same second the first one gives way. */
  lemma {:induction false} FirstOfATie(entries: seq<Entry>, m: nat)
    requires 0 < m <= |entries|
    requires forall j :: 0 <= j < m ==> entries[j].active && entries[j].lastSeen == 0
    ensures Replacement(entries, m) == 0
  {
    if m > 1 {
      FirstOfATie(entries, m - 1);
    }
  }

  lemma NewAsk(entries: seq<Entry>, i: nat)
    requires entries != [] && i < 200
    requires forall j :: 0 <= j < |entries| ==> !Matches(entries[j], Name(i), Login)
    ensures var (after, answer) := Checked(entries, Name(i), Login, 0);
            && after == entries[Replacement(entries, |entries|) := EntryOf(i, 1)]
            && answer.allowed
  {
    hide Replacement;
    assert Zeros(1) == [] + [0];
  }

  lemma {:induction false} TableAfterFirstAsks(n: nat)
    requires n < TABLE_SIZE
    ensures TableAfter(FirstAsks(n)) == Filling(n)
  {
    hide TableAfter, Checked, Filling, EntryOf;
    if n == 0 {
      StartOfRun();
    } else {
      TableAfterFirstAsks(n - 1);
      OneMoreRequest(FirstAsks(n - 1), Ask(n - 1), "", Login);
      NextSlotIsFilled(n - 1);
    }
  }

  lemma NextSlotIsFilled(n: nat)
    requires n < TABLE_SIZE
    ensures Checked(Filling(n), Name(n), Login, 0).0 == Filling(n + 1)
  {
    hide Checked, Filling, Replacement;
    forall j | 0 <= j < TABLE_SIZE
      ensures !Matches(Filling(n)[j], Name(n), Login)
    {
    }
    NewAsk(Filling(n), n);
    FirstUnusedSlot(n, TABLE_SIZE);
    assert Filling(n)[TABLE_SIZE - 1 - n := EntryOf(n, 1)] == Filling(n + 1);
  }

  lemma StartOfRun()
    ensures TableAfter(FirstAsks(0)) == Filling(0)
  {
  }

  lemma RepeatedAsk(count: nat)
    requires 0 < count < LIMIT
    ensures Checked(BusyTable(count), Name(TABLE_SIZE - 1), Login, 0).0 == BusyTable(count + 1)
    ensures Checked(BusyTable(count), Name(TABLE_SIZE - 1), Login, 0).1.allowed
  {
    hide Filling, Name;
    RecentKeepsAll(Zeros(count), 0);
    assert Zeros(count + 1) == Zeros(count) + [0];
    assert Matches(BusyTable(count)[0], Name(TABLE_SIZE - 1), Login);
  }

  lemma {:induction false} TableAfterBusyAsks(count: nat)
    requires 0 < count <= LIMIT
    ensures TableAfter(BusyAsks(count)) == BusyTable(count)
    ensures Allows(BusyAsks(count - 1), Ask(TABLE_SIZE - 1))
  {
    hide TableAfter, Checked;
    OneMoreRequest(BusyAsks(count - 1), Ask(TABLE_SIZE - 1), "", Login);
    if count == 1 {
      TableAfterFirstAsks(TABLE_SIZE - 1);
      NewAsk(Filling(TABLE_SIZE - 1), TABLE_SIZE - 1);
      FirstUnusedSlot(TABLE_SIZE - 1, TABLE_SIZE);
    } else {
      TableAfterBusyAsks(count - 1);
      RepeatedAsk(count - 1);
    }
  }

  lemma {:induction false} NoneOfTheFirst(n: nat)
    requires n < TABLE_SIZE
    ensures AllowedTimes(FirstAsks(n), Name(TABLE_SIZE - 1), Login) == []
  {
    hide AllowedTimes, TableAfter, Allows;
    if n == 0 {
      NothingAllowedYet(Name(TABLE_SIZE - 1), Login);
      NoTimes();
    } else {
      NoneOfTheFirst(n - 1);
      OneMoreRequest(FirstAsks(n - 1), Ask(n - 1), Name(TABLE_SIZE - 1), Login);
    }
  }

  lemma NoTimes()
    ensures AllowedTimes([], Name(TABLE_SIZE - 1), Login) == []
  {
  }

  lemma {:induction false} BusyTimes(count: nat)
    requires count <= LIMIT
    ensures AllowedTimes(BusyAsks(count), Name(TABLE_SIZE - 1), Login) == Zeros(count)
  {
    hide AllowedTimes, TableAfter, Allows;
    if count == 0 {
      NoneOfTheFirst(TABLE_SIZE - 1);
    } else {
      BusyTimes(count - 1);
      TableAfterBusyAsks(count);
      OneMoreRequest(BusyAsks(count - 1), Ask(TABLE_SIZE - 1), Name(TABLE_SIZE - 1), Login);
      assert Zeros(count) == Zeros(count - 1) + [0];
    }
  }

  /** 127 names ask once, one more asks as often as it may, and then a newcomer asks. */
  function CrowdedRun(): seq<Request> {
    BusyAsks(LIMIT) + [Ask(TABLE_SIZE)]
  }

  lemma NewcomerTakesTheFirstSlot()
    ensures TableAfter(CrowdedRun()) == BusyTable(LIMIT)[0 := EntryOf(TABLE_SIZE, 1)]
  {
    hide TableAfter, Checked;
    TableAfterBusyAsks(LIMIT);
    OneMoreRequest(BusyAsks(LIMIT), Ask(TABLE_SIZE), "", Login);
    NewAsk(BusyTable(LIMIT), TABLE_SIZE);
    FirstOfATie(BusyTable(LIMIT), TABLE_SIZE);
  }

  lemma TimesAfterTheRun()
    ensures AllowedTimes(CrowdedRun(), Name(TABLE_SIZE - 1), Login) == Zeros(LIMIT)
  {
    hide AllowedTimes, TableAfter, Allows;
    BusyTimes(LIMIT);
    OneMoreRequest(BusyAsks(LIMIT), Ask(TABLE_SIZE), Name(TABLE_SIZE - 1), Login);
    assert Zeros(LIMIT) + [] == Zeros(LIMIT);
  }

  // ----- the crowd -----

  /** The names that asked besides the busy one: its predecessors and the newcomer. */
  function OtherName(i: nat): Pair
    requires i < TABLE_SIZE
  {
    (Name(if i < TABLE_SIZE - 1 then i else TABLE_SIZE), Login)
  }

  function OtherNames(): (names: seq<Pair>)
    ensures |names| == TABLE_SIZE
    ensures forall i :: 0 <= i < TABLE_SIZE ==> names[i] == OtherName(i)
  {
    seq(TABLE_SIZE, i requires 0 <= i < TABLE_SIZE => OtherName(i))
  }

  lemma {:induction false} FirstAskers(n: nat, r: Request)
    requires n < TABLE_SIZE && r in FirstAsks(n)
    ensures exists i :: 0 <= i < n && r == Ask(i)
  {
    if r in FirstAsks(n - 1) {
      FirstAskers(n - 1, r);
    } else {
      assert r == Ask(n - 1);
    }
  }

  lemma {:induction false} BusyAskers(count: nat, r: Request)
    requires r in BusyAsks(count)
    ensures exists i :: 0 <= i < TABLE_SIZE && r == Ask(i)
  {
    if count == 0 {
      FirstAskers(TABLE_SIZE - 1, r);
      var i :| 0 <= i < TABLE_SIZE - 1 && r == Ask(i);
    } else if r in BusyAsks(count - 1) {
      BusyAskers(count - 1, r);
    } else {
      assert r == Ask(TABLE_SIZE - 1);
    }
  }

  lemma OthersAreNamed(r: Request)
    requires r in CrowdedRun() && PairOf(r) != PairOf(Ask(TABLE_SIZE - 1))
    ensures PairOf(r) in OtherNames()
  {
    hide Name, OtherNames, BusyAsks;
    if r in BusyAsks(LIMIT) {
      BusyAskers(LIMIT, r);
      var i :| 0 <= i < TABLE_SIZE && r == Ask(i);
      assert OtherNames()[i] == PairOf(r);
    } else {
      assert OtherNames()[TABLE_SIZE - 1] == PairOf(r);
    }
  }

  lemma NoMoreOthers()
    ensures |Others(CrowdedRun(), PairOf(Ask(TABLE_SIZE - 1)), 0)| <= TABLE_SIZE
  {
    hide CrowdedRun, OtherNames, PairOf, Ask;
    var p := PairOf(Ask(TABLE_SIZE - 1));
    var names := set q | q in OtherNames();
    forall q | q in Others(CrowdedRun(), p, 0)
      ensures q in names
    {
      var r :| r in CrowdedRun() && PairOf(r) != p && PairOf(r) == q;
      OthersAreNamed(r);
    }
    SubsetSize(Others(CrowdedRun(), p, 0), names);
    assert forall i, j :: 0 <= i < j < TABLE_SIZE ==> OtherName(i) != OtherName(j);
    CountDistinct(OtherNames());
  }

  lemma {:induction false} FirstAsksAreInTime(n: nat)
    requires n < TABLE_SIZE
    ensures forall r :: r in FirstAsks(n) ==> 0 < |r.key| < KEY_SIZE && r.at == 0
  {
    if n > 0 {
      FirstAsksAreInTime(n - 1);
    }
  }

  lemma {:induction false} BusyAsksAreInTime(count: nat)
    ensures forall r :: r in BusyAsks(count) ==> 0 < |r.key| < KEY_SIZE && r.at == 0
  {
    if count == 0 {
      FirstAsksAreInTime(TABLE_SIZE - 1);
    } else {
      BusyAsksAreInTime(count - 1);
    }
  }

  lemma CrowdedRunIsOrdered(last: Request)
    requires last == Ask(TABLE_SIZE - 1)
    ensures IsOrdered(CrowdedRun() + [last])
  {
    hide BusyAsks;
    BusyAsksAreInTime(LIMIT);
    var all := CrowdedRun() + [last];
    forall i | 0 <= i < |all|
      ensures 0 < |all[i].key| < KEY_SIZE && all[i].at == 0
    {
      assert all[i] in BusyAsks(LIMIT) || all[i] == Ask(TABLE_SIZE) || all[i] == last;
    }
  }

  /** The bound is tight, and it is on the window: in this run exactly 128 other pairs asked within
      the second, only one of them after the busy pair's last request, and the busy pair is allowed
      a sixth attempt that the naive rule denies. */
  lemma CrowdOf128IsEnough()
    ensures var requests, r := CrowdedRun(), Ask(TABLE_SIZE - 1);
            && IsOrdered(requests + [r])
            && requests == BusyAsks(LIMIT) + [Ask(TABLE_SIZE)]
            && requests[|requests| - 2] == r
            && |Others(requests, PairOf(r), r.at)| == TABLE_SIZE
            && Allows(requests, r) && !NaiveAllows(requests, r)
  {
    hide Others, Allows, NaiveAllows, IsOrdered;
    SixthAttemptIsAllowed();
    CrowdedRunIsOrdered(Ask(TABLE_SIZE - 1));
    NoMoreOthers();
    if |Others(CrowdedRun(), PairOf(Ask(TABLE_SIZE - 1)), 0)| < TABLE_SIZE {
      AnswerIsNaiveUnlessCrowded(CrowdedRun(), Ask(TABLE_SIZE - 1));
    }
  }

  /** The pair is allowed a sixth attempt within the second. */
  lemma SixthAttemptIsAllowed()
    ensures var r := Ask(TABLE_SIZE - 1);
            Allows(CrowdedRun(), r) && !NaiveAllows(CrowdedRun(), r)
  {
    hide AllowedTimes, TableAfter, CrowdedRun, Checked;
    NewcomerTakesTheFirstSlot();
    NewAsk(BusyTable(LIMIT)[0 := EntryOf(TABLE_SIZE, 1)], TABLE_SIZE - 1);
    TimesAfterTheRun();
    RecentKeepsAll(Zeros(LIMIT), 0);
  }
}
