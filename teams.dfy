/**
 * The team data of the flexbox ordering game, the three ordering modes with
 * their comparators, and the expected order the check button computes by
 * sorting a copy of the teams with the current mode's comparator.
 */
module Teams {

  /** One team card's data; only `id` and the three numeric attributes matter to the game logic. */
  datatype Team = Team(id: string, img: string, championships: int, founded: int, followers: int)

  const TEAMS: seq<Team> := [
    Team("Red Sox", "boston-red-sox-logo-transparent.png", 9, 1901, 1200000),
    Team("Celtics", "boston-celtics-logo-transparent.png", 17, 1946, 1500000),
    Team("Patriots", "New_England_Patriots_logo.svg.png", 6, 1959, 2000000),
    Team("Bruins", "Boston_Bruins.svg.png", 6, 1924, 800000)
  ]

  datatype ModeKey = Championships | Founded | Followers

  /** An ordering mode: its comparator is selected by `key` (see Compare). */
  datatype Mode = Mode(key: ModeKey, name: string, instruction: string)

  const MODES: seq<Mode> := [
    Mode(Championships, "Most championships (high \U{2192} low)",
         "Order teams from most championships (left) to least (right)."),
    Mode(Founded, "Date founded (oldest \U{2192} newest)",
         "Order teams from oldest (left) to newest (right)."),
    Mode(Followers, "Most social followers (high \U{2192} low)",
         "Order teams from most social followers (left) to least (right).")
  ]

  /**
   * The mode's comparator: negative when a goes left of b, as
   * Array.prototype.sort reads it; it is at most 0 exactly when the mode's
   * stated order lets `a` stand left of `b`.
   */
  function Compare(k: ModeKey, a: Team, b: Team): (r: int)
    ensures r <= 0 <==> StatedOrder(k, a, b)
  {
    match k
    case Championships => b.championships - a.championships
    case Founded => a.founded - b.founded
    case Followers => b.followers - a.followers
  }

  /** The order the mode's instruction asks for: `a` may stand left of `b`. */
  predicate StatedOrder(k: ModeKey, a: Team, b: Team)
  {
    match k
    case Championships => a.championships >= b.championships
    case Founded => a.founded <= b.founded
    case Followers => a.followers >= b.followers
  }

  /**
   * Each comparator induces its stated order strictly as well: descending
   * championships and followers, ascending founding year; and it is
   * antisymmetric.
   */
  lemma ComparatorInducesStatedOrder(k: ModeKey, a: Team, b: Team)
    ensures Compare(k, a, b) < 0 <==> StatedOrder(k, a, b) && !StatedOrder(k, b, a)
    ensures Compare(k, a, b) == -Compare(k, b, a)
  {
  }

  predicate Sorted(k: ModeKey, s: seq<Team>)
  {
    forall i, j {:trigger Compare(k, s[i], s[j])} :: 0 <= i < j < |s| ==> Compare(k, s[i], s[j]) <= 0
  }

  /** No two teams of `s` compare equal under mode `k`. */
  predicate NoTies(k: ModeKey, s: seq<Team>)
  {
    forall i, j :: 0 <= i < j < |s| ==> Compare(k, s[i], s[j]) != 0
  }

  lemma ConsSorted(k: ModeKey, h: Team, t: seq<Team>)
    requires Sorted(k, t)
    requires forall j :: 0 <= j < |t| ==> Compare(k, h, t[j]) <= 0
    ensures Sorted(k, [h] + t)
  {
    var s := [h] + t;
    forall i, j | 0 <= i < j < |s|
      ensures Compare(k, s[i], s[j]) <= 0
    {
      if i > 0 {
        assert s[i] == t[i - 1] && s[j] == t[j - 1];
      } else {
        assert s[j] == t[j - 1];
      }
    }
  }

  lemma HeadBeforeSorted(k: ModeKey, h: Team, t: seq<Team>)
    requires Sorted(k, t)
    requires t == [] || Compare(k, h, t[0]) <= 0
    ensures forall j :: 0 <= j < |t| ==> Compare(k, h, t[j]) <= 0
  {
    forall j | 0 <= j < |t|
      ensures Compare(k, h, t[j]) <= 0
    {
      if j > 0 {
        assert Compare(k, t[0], t[j]) <= 0;
      }
    }
  }

  /** Helper for InsertSorted: the head of a sorted run stays in front after `x` joins the rest. */
  lemma FirstBeforeAll(k: ModeKey, h: Team, x: Team, t: seq<Team>, rest: seq<Team>)
    requires forall j :: 0 <= j < |t| ==> Compare(k, h, t[j]) <= 0
    requires Compare(k, h, x) <= 0
    requires multiset(rest) == multiset(t) + multiset{x}
    ensures forall j :: 0 <= j < |rest| ==> Compare(k, h, rest[j]) <= 0
  {
    forall j | 0 <= j < |rest|
      ensures Compare(k, h, rest[j]) <= 0
    {
      assert rest[j] in multiset(rest);
      if rest[j] != x {
        assert rest[j] in multiset(t);
        var i :| 0 <= i < |t| && t[i] == rest[j];
      }
    }
  }

  /**
   * Inserts `x` in front of the first element it does not compare after.
   * As `x` comes earlier in the input than every element of `s`, ties keep
   * their input order.
   */
  function Insert(k: ModeKey, x: Team, s: seq<Team>): (r: seq<Team>)
    ensures |r| == |s| + 1
  {
    if s == [] || Compare(k, x, s[0]) <= 0 then [x] + s
    else [s[0]] + Insert(k, x, s[1..])
  }

  /**
   * The stable sort of `s` under the mode's comparator (stability is what
   * Array.prototype.sort guarantees since ECMAScript 2019).
   */
  function SortBy(k: ModeKey, s: seq<Team>): (r: seq<Team>)
    ensures |r| == |s|
  {
    if s == [] then [] else Insert(k, s[0], SortBy(k, s[1..]))
  }

  lemma {:induction false} InsertPermutes(k: ModeKey, x: Team, s: seq<Team>)
    ensures multiset(Insert(k, x, s)) == multiset(s) + multiset{x}
  {
    if s != [] && Compare(k, x, s[0]) > 0 {
      InsertPermutes(k, x, s[1..]);
      assert s == [s[0]] + s[1..];
    }
  }

  lemma {:induction false} InsertSorted(k: ModeKey, x: Team, s: seq<Team>)
    requires Sorted(k, s)
    ensures Sorted(k, Insert(k, x, s))
  {
    if s == [] || Compare(k, x, s[0]) <= 0 {
      HeadBeforeSorted(k, x, s);
      ConsSorted(k, x, s);
    } else {
      var rest := Insert(k, x, s[1..]);
      assert Sorted(k, s[1..]) by {
        forall i, j | 0 <= i < j < |s[1..]|
          ensures Compare(k, s[1..][i], s[1..][j]) <= 0
        {
          assert Compare(k, s[i + 1], s[j + 1]) <= 0;
        }
      }
      InsertSorted(k, x, s[1..]);
      InsertPermutes(k, x, s[1..]);
      assert s == [s[0]] + s[1..];
      assert forall j :: 0 <= j < |s[1..]| ==> Compare(k, s[0], s[1..][j]) <= 0 by {
        forall j | 0 <= j < |s[1..]|
          ensures Compare(k, s[0], s[1..][j]) <= 0
        {
          assert Compare(k, s[0], s[j + 1]) <= 0;
        }
      }
      ComparatorInducesStatedOrder(k, x, s[0]);
      FirstBeforeAll(k, s[0], x, s[1..], rest);
      ConsSorted(k, s[0], rest);
    }
  }

  /** Sorting yields an arrangement in the mode's order that is a permutation of the input. */
  lemma {:induction false} SortBySortsAndPermutes(k: ModeKey, s: seq<Team>)
    ensures Sorted(k, SortBy(k, s))
    ensures multiset(SortBy(k, s)) == multiset(s)
  {
    if s != [] {
      SortBySortsAndPermutes(k, s[1..]);
      InsertSorted(k, s[0], SortBy(k, s[1..]));
      InsertPermutes(k, s[0], SortBy(k, s[1..]));
      assert s == [s[0]] + s[1..];
    }
  }

  function Ids(s: seq<Team>): (r: seq<string>)
  {
    seq(|s|, i requires 0 <= i < |s| => s[i].id)
  }

  lemma IdsAppend(a: seq<Team>, b: seq<Team>)
    ensures Ids(a + b) == Ids(a) + Ids(b)
  {
  }

  /** Rearranging teams rearranges their ids the same way. */
  lemma {:induction false} IdsPermute(a: seq<Team>, b: seq<Team>)
    requires multiset(a) == multiset(b)
    ensures multiset(Ids(a)) == multiset(Ids(b))
  {
    if a == [] {
      assert |b| == |multiset(b)| == 0;
    } else {
      assert a[0] in multiset(b);
      var j :| 0 <= j < |b| && b[j] == a[0];
      var rest := b[..j] + b[j + 1..];
      assert b == b[..j] + [b[j]] + b[j + 1..];
      assert a == [a[0]] + a[1..];
      assert multiset(b) == multiset(b[..j]) + multiset{b[j]} + multiset(b[j + 1..]);
      assert multiset(rest) == multiset(b[..j]) + multiset(b[j + 1..]);
      assert multiset(a[1..]) == multiset(a) - multiset{a[0]};
      assert multiset(a[1..]) == multiset(rest);
      IdsPermute(a[1..], rest);
      IdsAppend(b[..j], b[j + 1..]);
      IdsAppend(b[..j] + [b[j]], b[j + 1..]);
      IdsAppend(b[..j], [b[j]]);
      IdsAppend([a[0]], a[1..]);
    }
  }

  /** The order the check button expects: a copy of TEAMS sorted by the mode's comparator, mapped to ids. */
  function ExpectedIds(k: ModeKey): (r: seq<string>)
    ensures |r| == |TEAMS|
  {
    Ids(SortBy(k, TEAMS))
  }

  /** The expected order lists every team's id once: it is a rearrangement of the ids of TEAMS. */
  lemma ExpectedIdsArrangeTeams(k: ModeKey)
    ensures multiset(ExpectedIds(k)) == multiset(Ids(TEAMS))
  {
    SortBySortsAndPermutes(k, TEAMS);
    IdsPermute(SortBy(k, TEAMS), TEAMS);
  }

  /** The expected arrangements as teams: for championships the tie Patriots/Bruins keeps TEAMS order. */
  lemma ExpectedTeams()
    ensures SortBy(Championships, TEAMS) == [TEAMS[1], TEAMS[0], TEAMS[2], TEAMS[3]]
    ensures SortBy(Founded, TEAMS) == [TEAMS[0], TEAMS[3], TEAMS[1], TEAMS[2]]
    ensures SortBy(Followers, TEAMS) == [TEAMS[2], TEAMS[1], TEAMS[0], TEAMS[3]]
  {
  }

  /** The id sequences the check button compares against, one per mode. */
  lemma ExpectedOrders()
    ensures ExpectedIds(Championships) == ["Celtics", "Red Sox", "Patriots", "Bruins"]
    ensures ExpectedIds(Founded) == ["Red Sox", "Bruins", "Celtics", "Patriots"]
    ensures ExpectedIds(Followers) == ["Patriots", "Celtics", "Red Sox", "Bruins"]
  {
    ExpectedTeams();
  }

  lemma TailSorted(k: ModeKey, s: seq<Team>)
    requires s != [] && Sorted(k, s)
    ensures Sorted(k, s[1..])
    ensures NoTies(k, s) ==> NoTies(k, s[1..])
  {
    forall a, b | 0 <= a < b < |s| - 1
      ensures Compare(k, s[1..][a], s[1..][b]) <= 0
      ensures NoTies(k, s) ==> Compare(k, s[1..][a], s[1..][b]) != 0
    {
      assert s[1..][a] == s[a + 1] && s[1..][b] == s[b + 1];
    }
  }

  /** Two sorted arrangements of one multiset, the first without ties, start with the same team. */
  lemma SameHead(k: ModeKey, s: seq<Team>, t: seq<Team>)
    requires Sorted(k, s) && Sorted(k, t) && NoTies(k, s)
    requires multiset(s) == multiset(t) && s != []
    ensures t != [] && t[0] == s[0]
  {
    assert |t| == |multiset(t)| == |s|;
    assert s[0] in multiset(t);
    var j :| 0 <= j < |t| && t[j] == s[0];
    assert t[0] in multiset(s);
    var i :| 0 <= i < |s| && s[i] == t[0];
    assert Compare(k, s[0], s[i]) <= 0 && Compare(k, s[i], s[0]) <= 0;
    ComparatorInducesStatedOrder(k, s[0], s[i]);
  }

  lemma TailsPermute<T>(s: seq<T>, t: seq<T>)
    requires s != [] && t != [] && s[0] == t[0]
    requires multiset(s) == multiset(t)
    ensures multiset(s[1..]) == multiset(t[1..])
  {
    assert s == [s[0]] + s[1..] && t == [t[0]] + t[1..];
    assert multiset(s[1..]) == multiset(s) - multiset{s[0]};
    assert multiset(t[1..]) == multiset(t) - multiset{s[0]};
  }

  /** Without ties, a sorted arrangement of a multiset of teams is unique. */
  lemma {:induction false} SortedUnique(k: ModeKey, s: seq<Team>, t: seq<Team>)
    requires Sorted(k, s) && Sorted(k, t) && NoTies(k, s)
    requires multiset(s) == multiset(t)
    ensures s == t
  {
    if s == [] {
      assert |t| == |multiset(t)| == 0;
    } else {
      SameHead(k, s, t);
      TailsPermute(s, t);
      TailSorted(k, s);
      TailSorted(k, t);
      SortedUnique(k, s[1..], t[1..]);
      assert s == [s[0]] + s[1..] && t == [t[0]] + t[1..];
    }
  }

  /** Each id is on at most one card. */
  lemma TeamIdsOnce()
    ensures forall y :: multiset(Ids(TEAMS))[y] <= 1
  {
    assert Ids(TEAMS) == ["Red Sox", "Celtics", "Patriots", "Bruins"];
  }

  /** Team ids identify teams. */
  lemma TeamIdsDistinct()
    ensures forall a, b :: a in TEAMS && b in TEAMS && a.id == b.id ==> a == b
  {
  }

  /** Two arrangements of the teams with the same id sequence are the same arrangement. */
  lemma SameIdsSameTeams(p: seq<Team>, q: seq<Team>)
    requires multiset(p) == multiset(TEAMS) && multiset(q) == multiset(TEAMS)
    requires Ids(p) == Ids(q)
    ensures p == q
  {
    TeamIdsDistinct();
    assert |p| == |Ids(p)| == |q|;
    forall i | 0 <= i < |p|
      ensures p[i] == q[i]
    {
      assert p[i] in multiset(p) && q[i] in multiset(q);
      assert Ids(p)[i] == Ids(q)[i];
    }
  }

  lemma ExpectedHasNoTies(k: ModeKey)
    requires k != Championships
    ensures NoTies(k, SortBy(k, TEAMS))
  {
    ExpectedTeams();
  }

  /**
   * For the two modes without ties, the check passes on an arrangement of
   * the teams exactly when the arrangement is in the mode's order.
   */
  lemma CheckPassesIffSorted(k: ModeKey, p: seq<Team>)
    requires k != Championships
    requires multiset(p) == multiset(TEAMS)
    ensures Ids(p) == ExpectedIds(k) <==> Sorted(k, p)
  {
    var e := SortBy(k, TEAMS);
    SortBySortsAndPermutes(k, TEAMS);
    ExpectedHasNoTies(k);
    if Sorted(k, p) {
      SortedUnique(k, e, p);
    }
    if Ids(p) == Ids(e) {
      SameIdsSameTeams(p, e);
    }
  }

  /**
   * The arrangement Celtics, Red Sox, Bruins, Patriots: the tie on
   * championships the other way round. It is an arrangement of the teams
   * in the championships order.
   */
  function TieSwapped(): (r: seq<Team>)
    ensures multiset(r) == multiset(TEAMS) && Sorted(Championships, r)
  {
    assert TEAMS == [TEAMS[0], TEAMS[1], TEAMS[2], TEAMS[3]];
    [TEAMS[1], TEAMS[0], TEAMS[3], TEAMS[2]]
  }

  /**
   * Under the championships mode the check accepts only one of the two
   * arrangements in the stated order: Bruins before Patriots (both 6) is
   * rejected.
   */
  lemma ChampionshipsTieRejected()
    ensures Ids(TieSwapped()) != ExpectedIds(Championships)
  {
    ExpectedOrders();
    assert Ids(TieSwapped())[2] == "Bruins";
  }
}
