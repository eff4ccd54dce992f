// Players, the cities they own and the uid index, on values:
// src/gamesvr/obj_mgr_module. Indices are pool units, 0 is no object.
module ObjStates {
  import opened FreeChains

  const MAX_CITY_NUM_PER_PLAYER := 100

  // cityList[0] counts, entries 1 .. 99 hold city indices or 0.
  datatype Player = Player(uid: int, cityList: seq<int>)

  datatype City = City(playerIdx: int)

  datatype World = World(
    players: map<int, Player>, playerFree: seq<int>, playerTotal: nat,
    cities: map<int, City>, cityFree: seq<int>, cityTotal: nat,
    uids: map<int, int>)

  // Initialising a NULL object is a null dereference: the test for NULL comes
  // after the call in AddPlayer and AddCity.
  datatype Outcome = Returned(value: int) | NullDereference

  function ZeroPlayer(): Player {
    Player(0, seq(101, _ => 0))
  }

  // ----- operations -----

  function Bind(uids: map<int, int>, uid: int, playerIdx: int): map<int, int> {
    if uid in uids then uids else uids[uid := playerIdx]
  }

  function Erase(uids: map<int, int>, uid: int, playerIdx: int): map<int, int> {
    if uid in uids && uids[uid] == playerIdx then uids - {uid} else uids
  }

  function AddPlayer(w: World): World {
    if w.playerFree == [] then w
    else w.(players := w.players[w.playerFree[0] := ZeroPlayer()], playerFree := w.playerFree[1..])
  }

  function AddPlayerOutcome(w: World): Outcome {
    if w.playerFree == [] then NullDereference else Returned(w.playerFree[0])
  }

  // The entries that hold cities; the loops stop before the last but one.
  function Entries(list: seq<int>): seq<int>
    requires |list| == 101
  {
    list[1..MAX_CITY_NUM_PER_PLAYER]
  }

  // The index of the first 0, or the length.
  function FirstEmpty(s: seq<int>): (k: nat)
    ensures k <= |s| && (k < |s| ==> s[k] == 0) && forall j | 0 <= j < k :: s[j] != 0
  {
    if s == [] || s[0] == 0 then 0 else 1 + FirstEmpty(s[1..])
  }

  function AddCityOutcome(w: World, playerIdx: int): Outcome
    requires playerIdx in w.players ==> |w.players[playerIdx].cityList| == 101
  {
    if playerIdx !in w.players then Returned(-1)
    else
      var list := w.players[playerIdx].cityList;
      if list[0] >= MAX_CITY_NUM_PER_PLAYER then Returned(-2)
      else if FirstEmpty(Entries(list)) == 99 then Returned(-4)
      else if w.cityFree == [] then NullDereference
      else Returned(w.cityFree[0])
  }

  // The player with a city entered at i and counted.
  function Filled(player: Player, i: nat, city: int): Player
    requires |player.cityList| == 101 && i <= 100
  {
    player.(cityList := player.cityList[0 := player.cityList[0] + 1][i := city])
  }

  function AddCity(w: World, playerIdx: int): World
    requires playerIdx in w.players ==> |w.players[playerIdx].cityList| == 101
  {
    if playerIdx !in w.players then w
    else
      var list := w.players[playerIdx].cityList;
      var k := 1 + FirstEmpty(Entries(list));
      if list[0] >= MAX_CITY_NUM_PER_PLAYER || k == 100 || w.cityFree == [] then w
      else
        w.(players := w.players[playerIdx := Filled(w.players[playerIdx], k, w.cityFree[0])],
           cities := w.cities[w.cityFree[0] := City(playerIdx)], cityFree := w.cityFree[1..])
  }

  datatype CityPool = CityPool(cities: map<int, City>, free: seq<int>)

  function DelCity(p: CityPool, cityIdx: int): CityPool {
    if cityIdx in p.cities then CityPool(p.cities - {cityIdx}, [cityIdx] + p.free) else p
  }

  // The deleting loop of DelPlayer.
  function DelCities(p: CityPool, s: seq<int>): CityPool
    decreases |s|
  {
    if s == [] then p
    else DelCities(if s[0] != 0 then DelCity(p, s[0]) else p, s[1..])
  }

  function DelPlayer(w: World, playerIdx: int): World
    requires playerIdx in w.players ==> |w.players[playerIdx].cityList| == 101
  {
    if playerIdx !in w.players then w
    else
      var player := w.players[playerIdx];
      var p := CityPool(w.cities, w.cityFree);
      var p' := if player.cityList[0] > 0 then DelCities(p, Entries(player.cityList)) else p;
      w.(players := w.players - {playerIdx}, playerFree := [playerIdx] + w.playerFree,
         cities := p'.cities, cityFree := p'.free, uids := Erase(w.uids, player.uid, playerIdx))
  }

  function SetUid(w: World, playerIdx: int, uid: int): World
    requires playerIdx in w.players
  {
    w.(players := w.players[playerIdx := w.players[playerIdx].(uid := uid)], uids := Bind(w.uids, uid, playerIdx))
  }

  // ----- invariant -----

  // The number of entries that are not 0, and the set of them.
  function Count(s: seq<int>): (n: nat)
    ensures n <= |s|
  {
    if s == [] then 0 else (if s[0] != 0 then 1 else 0) + Count(s[1..])
  }

  ghost function Cities(s: seq<int>): set<int> {
    set c | c in s && c != 0
  }

  ghost predicate NoDoubles(s: seq<int>) {
    forall i, j | 0 <= i < j < |s| && s[i] != 0 :: s[i] != s[j]
  }

  // One player's list: the count is right, no city occurs twice, and the
  // entries are exactly the cities that say they belong to this player.
  ghost predicate OwnsRightly(playerIdx: int, list: seq<int>, cities: map<int, City>) {
    && |list| == 101
    && list[0] == Count(Entries(list))
    && NoDoubles(Entries(list))
    && Cities(Entries(list)) <= cities.Keys
    && forall c | c in cities :: cities[c].playerIdx == playerIdx <==> c in Cities(Entries(list))
  }

  // The cities counted by the first n player indices.
  function Tally(players: map<int, Player>, n: nat): int
    requires forall p | p in players :: |players[p].cityList| == 101
  {
    if n == 0 then 0
    else Tally(players, n - 1) + (if n in players then players[n].cityList[0] else 0)
  }

  ghost predicate Owned(w: World) {
    && (forall p | p in w.players :: OwnsRightly(p, w.players[p].cityList, w.cities))
    && (forall c | c in w.cities :: w.cities[c].playerIdx in w.players)
  }

  ghost predicate Sound(w: World) {
    && Pool(w.players.Keys, w.playerFree, w.playerTotal)
    && Pool(w.cities.Keys, w.cityFree, w.cityTotal)
    && Owned(w)
    && |w.cities| == Tally(w.players, w.playerTotal)
  }

  // ----- lists -----

  lemma {:induction false} ZeroCount(s: seq<int>)
    ensures Count(s) == 0 <==> Cities(s) == {}
  {
    if s != [] {
      ZeroCount(s[1..]);
      assert s == [s[0]] + s[1..];
      if s[0] != 0 {
        assert s[0] in Cities(s);
      } else {
        assert Cities(s) == Cities(s[1..]);
      }
    }
  }

  lemma {:induction false} FillCounts(s: seq<int>, k: nat, city: int)
    requires k < |s| && s[k] == 0 && city != 0
    ensures Count(s[k := city]) == Count(s) + 1
  {
    if k > 0 {
      FillCounts(s[1..], k - 1, city);
      assert s[k := city][1..] == s[1..][k - 1 := city];
    } else {
      assert s[k := city][1..] == s[1..];
    }
  }

  lemma FillCities(s: seq<int>, k: nat, city: int)
    requires k < |s| && s[k] == 0 && city != 0
    ensures Cities(s[k := city]) == Cities(s) + {city}
    ensures NoDoubles(s) && city !in s ==> NoDoubles(s[k := city])
  {
    var t := s[k := city];
    forall c ensures c in Cities(t) <==> c in Cities(s) || c == city {
      if c in Cities(s) {
        var j :| 0 <= j < |s| && s[j] == c;
        assert t[j] == c;
      }
      assert t[k] == city;
    }
    if NoDoubles(s) && city !in s {
      forall i, j | 0 <= i < j < |t| && t[i] != 0 ensures t[i] != t[j] {
        assert s[i] in s && s[j] in s;
      }
    }
  }

  // ----- deleting -----

  lemma DelCityRemoves(p: CityPool, c: int)
    requires c in p.cities
    ensures DelCity(p, c).cities == p.cities - {c} && |DelCity(p, c).cities| == |p.cities| - 1
  {
  }

  lemma FirstOf(s: seq<int>)
    requires s != [] && NoDoubles(s)
    ensures NoDoubles(s[1..])
    ensures Cities(s) == (if s[0] != 0 then {s[0]} else {}) + Cities(s[1..])
    ensures s[0] !in Cities(s[1..])
  {
  }

  lemma SubtractTwice(m: map<int, City>, a: int, s: set<int>)
    ensures m - {a} - s == m - ({a} + s)
  {
  }

  // Deleting the entries of a list removes them, all of them and each once.
  lemma {:induction false} DelCitiesRemoves(p: CityPool, s: seq<int>)
    requires NoDoubles(s) && Cities(s) <= p.cities.Keys
    ensures DelCities(p, s).cities == p.cities - Cities(s)
    ensures |DelCities(p, s).cities| == |p.cities| - Count(s)
    decreases |s|, 1
  {
    if s == [] {
      assert p.cities - Cities(s) == p.cities;
    } else {
      FirstOf(s);
      if s[0] != 0 {
        DelFirst(p, s);
      } else {
        SkipFirst(p, s);
      }
    }
  }

  lemma {:induction false} SkipFirst(p: CityPool, s: seq<int>)
    requires s != [] && s[0] == 0 && NoDoubles(s[1..]) && Cities(s[1..]) <= p.cities.Keys
    requires Cities(s) == {} + Cities(s[1..])
    ensures DelCities(p, s).cities == p.cities - Cities(s)
    ensures |DelCities(p, s).cities| == |p.cities| - Count(s)
    decreases |s|, 0
  {
    DelCitiesRemoves(p, s[1..]);
    assert Cities(s) == Cities(s[1..]);
  }

  lemma {:induction false} DelFirst(p: CityPool, s: seq<int>)
    requires s != [] && s[0] != 0 && s[0] in p.cities
    requires NoDoubles(s[1..]) && Cities(s[1..]) <= p.cities.Keys && s[0] !in Cities(s[1..])
    requires Cities(s) == {s[0]} + Cities(s[1..])
    ensures DelCities(p, s).cities == p.cities - Cities(s)
    ensures |DelCities(p, s).cities| == |p.cities| - Count(s)
    decreases |s|, 0
  {
    DelCityRemoves(p, s[0]);
    DelCitiesRemoves(DelCity(p, s[0]), s[1..]);
    SubtractTwice(p.cities, s[0], Cities(s[1..]));
  }

  // ----- pools -----

  lemma {:induction false} DelCitiesKeepsPool(p: CityPool, s: seq<int>, total: nat)
    requires Pool(p.cities.Keys, p.free, total)
    ensures Pool(DelCities(p, s).cities.Keys, DelCities(p, s).free, total)
    decreases |s|
  {
    if s != [] {
      if s[0] in p.cities {
        ReturnToPool(p.cities.Keys, p.free, total, s[0]);
        assert DelCity(p, s[0]).cities.Keys == p.cities.Keys - {s[0]};
      }
      DelCitiesKeepsPool(if s[0] != 0 then DelCity(p, s[0]) else p, s[1..], total);
    }
  }

  // ----- the tally -----

  ghost predicate Lists(players: map<int, Player>) {
    forall p | p in players :: |players[p].cityList| == 101
  }

  // Changing one player's count changes the tally by as much.
  lemma {:induction false} TallyUpdate(players: map<int, Player>, p: int, player: Player, n: nat)
    requires Lists(players) && |player.cityList| == 101 && 1 <= p
    ensures var before := if p in players then players[p].cityList[0] else 0;
            Tally(players[p := player], n) == Tally(players, n) + (if p <= n then player.cityList[0] - before else 0)
  {
    if n > 0 {
      TallyUpdate(players, p, player, n - 1);
    }
  }

  lemma {:induction false} TallyRemove(players: map<int, Player>, p: int, n: nat)
    requires Lists(players) && p in players && 1 <= p
    ensures Tally(players - {p}, n) == Tally(players, n) - (if p <= n then players[p].cityList[0] else 0)
  {
    if n > 0 {
      TallyRemove(players, p, n - 1);
    }
  }

  // ----- every operation keeps ownership -----

  lemma {:induction false} AllZero(s: seq<int>)
    requires forall k | 0 <= k < |s| :: s[k] == 0
    ensures Count(s) == 0 && Cities(s) == {} && NoDoubles(s)
  {
    if s != [] {
      AllZero(s[1..]);
    }
    assert forall c | c in s :: c == 0;
  }

  lemma ListsRight(w: World)
    requires Owned(w)
    ensures Lists(w.players)
  {
  }

  lemma NewPlayerOwns(w: World, p: int)
    requires Owned(w) && p !in w.players
    ensures OwnsRightly(p, ZeroPlayer().cityList, w.cities)
  {
    AllZero(Entries(ZeroPlayer().cityList));
  }

  lemma AddPlayerOwned(w: World)
    requires Owned(w) && w.playerFree != [] && w.playerFree[0] !in w.players
    ensures Owned(AddPlayer(w))
  {
    NewPlayerOwns(w, w.playerFree[0]);
  }

  lemma AddPlayerSound(w: World)
    requires Sound(w)
    ensures Sound(AddPlayer(w))
  {
    if w.playerFree != [] {
      var p, w' := w.playerFree[0], AddPlayer(w);
      TakeFromPool(w.players.Keys, w.playerFree, w.playerTotal);
      assert w'.players.Keys == w.players.Keys + {p};
      AddPlayerOwned(w);
      ListsRight(w);
      TallyUpdate(w.players, p, ZeroPlayer(), w.playerTotal);
    }
  }

  lemma NotAnEntry(s: seq<int>, city: int)
    requires city != 0 && city !in Cities(s)
    ensures city !in s
  {
  }

  // What one entry more does to its player, and that no other player minds.
  lemma FilledOwns(w: World, p: int, k: nat, city: int)
    requires Owned(w) && p in w.players && city != 0 && city !in w.cities
    requires OwnsRightly(p, w.players[p].cityList, w.cities)
    requires 1 <= k < 100 && w.players[p].cityList[k] == 0
    ensures OwnsRightly(p, Filled(w.players[p], k, city).cityList, w.cities[city := City(p)])
  {
    var list, filled := w.players[p].cityList, Filled(w.players[p], k, city).cityList;
    assert Entries(filled) == Entries(list)[k - 1 := city];
    NotAnEntry(Entries(list), city);
    FillCounts(Entries(list), k - 1, city);
    FillCities(Entries(list), k - 1, city);
  }

  lemma OthersOwn(q: int, list: seq<int>, cities: map<int, City>, city: int, p: int)
    requires OwnsRightly(q, list, cities) && q != p && city !in cities
    ensures OwnsRightly(q, list, cities[city := City(p)])
  {
  }

  lemma AddCityOwned(w: World, p: int, k: nat, city: int)
    requires Owned(w) && p in w.players && city != 0 && city !in w.cities
    requires |w.players[p].cityList| == 101 && 1 <= k < 100 && w.players[p].cityList[k] == 0
    ensures Owned(w.(players := w.players[p := Filled(w.players[p], k, city)], cities := w.cities[city := City(p)]))
  {
    assert OwnsRightly(p, w.players[p].cityList, w.cities);
    FilledOwns(w, p, k, city);
    forall q | q in w.players && q != p
      ensures OwnsRightly(q, w.players[q].cityList, w.cities[city := City(p)])
    {
      OthersOwn(q, w.players[q].cityList, w.cities, city, p);
    }
  }

  lemma AddCityTally(w: World, p: int)
    requires p in w.players && Lists(w.players) && AddCity(w, p) != w
    requires 1 <= p <= w.playerTotal && w.cityFree[0] !in w.cities && |w.cities| == Tally(w.players, w.playerTotal)
    ensures Lists(AddCity(w, p).players)
    ensures |AddCity(w, p).cities| == Tally(AddCity(w, p).players, w.playerTotal)
  {
    var k, city := 1 + FirstEmpty(Entries(w.players[p].cityList)), w.cityFree[0];
    TallyUpdate(w.players, p, Filled(w.players[p], k, city), w.playerTotal);
  }

  lemma AddCitySound(w: World, p: int)
    requires Sound(w)
    ensures Lists(w.players) && Sound(AddCity(w, p))
  {
    ListsRight(w);
    if p in w.players && AddCity(w, p) != w {
      EmptyAt(w.players[p].cityList);
      AddCityPools(w, p);
      AddCityOwned(w, p, 1 + FirstEmpty(Entries(w.players[p].cityList)), w.cityFree[0]);
      assert p in w.players.Keys;
      AddCityTally(w, p);
    }
  }

  lemma EmptyAt(list: seq<int>)
    requires |list| == 101
    ensures var k := 1 + FirstEmpty(Entries(list));
            k <= 100 && (k < 100 ==> list[k] == 0)
  {
  }

  lemma AddCityPools(w: World, p: int)
    requires Sound(w) && p in w.players && w.cityFree != []
    requires |w.players[p].cityList| == 101
    ensures Pool(AddCity(w, p).players.Keys, AddCity(w, p).playerFree, w.playerTotal)
    ensures Pool(AddCity(w, p).cities.Keys, AddCity(w, p).cityFree, w.cityTotal)
    ensures w.cityFree[0] !in w.cities && w.cityFree[0] > 0
  {
    TakeFromPool(w.cities.Keys, w.cityFree, w.cityTotal);
    assert AddCity(w, p).players.Keys == w.players.Keys;
    assert AddCity(w, p).cities.Keys == w.cities.Keys || AddCity(w, p).cities.Keys == w.cities.Keys + {w.cityFree[0]};
  }

  // The first two error codes apart, AddCity fails exactly when the player has
  // no empty entry or no city is free; the count never reaches the limit that
  // the second error code tests.
  lemma AddCityFails(w: World, p: int)
    requires Sound(w)
    ensures Lists(w.players)
    ensures AddCityOutcome(w, p) == Returned(-1) <==> p !in w.players
    ensures AddCityOutcome(w, p) != Returned(-2)
    ensures p in w.players ==>
              (AddCityOutcome(w, p) == Returned(-4) <==> w.players[p].cityList[0] == 99)
    ensures p in w.players && w.players[p].cityList[0] < 99 ==>
              (AddCityOutcome(w, p) == NullDereference <==> w.cityFree == [])
  {
    ListsRight(w);
    if p in w.players {
      var list := w.players[p].cityList;
      assert OwnsRightly(p, list, w.cities);
      CountFull(Entries(list));
      if w.cityFree != [] {
        TakeFromPool(w.cities.Keys, w.cityFree, w.cityTotal);
      }
    }
  }

  lemma {:induction false} CountFull(s: seq<int>)
    ensures Count(s) == |s| <==> FirstEmpty(s) == |s|
  {
    if s != [] {
      CountFull(s[1..]);
    }
  }

  // ----- deleting a player -----

  // Deleting what is in the list deletes exactly the player's cities.
  lemma DeletedCities(w: World, p: int)
    requires Sound(w) && p in w.players
    ensures Lists(w.players)
    ensures var list, w' := w.players[p].cityList, DelPlayer(w, p);
            && w'.cities == w.cities - Cities(Entries(list))
            && |w'.cities| == |w.cities| - list[0]
            && Pool(w'.cities.Keys, w'.cityFree, w.cityTotal)
  {
    ListsRight(w);
    var list := w.players[p].cityList;
    assert OwnsRightly(p, list, w.cities);
    var pool := CityPool(w.cities, w.cityFree);
    if list[0] > 0 {
      DelCitiesRemoves(pool, Entries(list));
      DelCitiesKeepsPool(pool, Entries(list), w.cityTotal);
    } else {
      ZeroCount(Entries(list));
      assert w.cities - Cities(Entries(list)) == w.cities;
    }
  }

  // No city is leaked and none is freed that another player owns.
  lemma DelPlayerFreesItsCities(w: World, p: int)
    requires Sound(w) && p in w.players
    ensures Lists(w.players)
    ensures forall c :: c in DelPlayer(w, p).cities <==> c in w.cities && w.cities[c].playerIdx != p
    ensures forall c | c in DelPlayer(w, p).cities :: DelPlayer(w, p).cities[c] == w.cities[c]
  {
    DeletedCities(w, p);
    assert OwnsRightly(p, w.players[p].cityList, w.cities);
  }

  lemma OthersKeep(q: int, list: seq<int>, cities: map<int, City>, cities': map<int, City>, p: int)
    requires OwnsRightly(q, list, cities) && q != p
    requires forall c :: c in cities' <==> c in cities && cities[c].playerIdx != p
    requires forall c | c in cities' :: cities'[c] == cities[c]
    ensures OwnsRightly(q, list, cities')
  {
  }

  lemma DelPlayerOwned(w: World, p: int)
    requires Sound(w) && p in w.players
    ensures Lists(w.players) && Owned(DelPlayer(w, p))
  {
    DelPlayerFreesItsCities(w, p);
    var w' := DelPlayer(w, p);
    forall q | q in w'.players ensures OwnsRightly(q, w'.players[q].cityList, w'.cities) {
      OthersKeep(q, w.players[q].cityList, w.cities, w'.cities, p);
    }
  }

  lemma DelPlayerSound(w: World, p: int)
    requires Sound(w)
    ensures Lists(w.players) && Sound(DelPlayer(w, p))
  {
    ListsRight(w);
    if p in w.players {
      var w' := DelPlayer(w, p);
      DeletedCities(w, p);
      DelPlayerOwned(w, p);
      ReturnToPool(w.players.Keys, w.playerFree, w.playerTotal, p);
      assert w'.players.Keys == w.players.Keys - {p};
      assert p in w.players.Keys;
      TallyRemove(w.players, p, w.playerTotal);
    }
  }

  lemma SetUidSound(w: World, p: int, uid: int)
    requires Sound(w) && p in w.players
    ensures Sound(SetUid(w, p, uid))
  {
    ListsRight(w);
    var w' := SetUid(w, p, uid);
    assert w'.players.Keys == w.players.Keys;
    assert p in w.players.Keys;
    TallyUpdate(w.players, p, w.players[p].(uid := uid), w.playerTotal);
  }

  // ----- the uid index -----

  // Every binding leads to a live player with that uid.
  ghost predicate Bound(w: World) {
    forall u | u in w.uids :: w.uids[u] in w.players && w.players[w.uids[u]].uid == u
  }

  lemma AddPlayerBound(w: World)
    requires Sound(w) && Bound(w)
    ensures Bound(AddPlayer(w))
  {
  }

  lemma AddCityBound(w: World, p: int)
    requires Sound(w) && Bound(w)
    ensures Lists(w.players) && Bound(AddCity(w, p))
  {
  }

  // Also when another live player has the same uid: then the binding may be
  // the other's, and it stays.
  lemma DelPlayerBound(w: World, p: int)
    requires Sound(w) && Bound(w)
    ensures Lists(w.players) && Bound(DelPlayer(w, p))
  {
  }

  // The player is bound already, under another uid.
  ghost predicate BoundOtherwise(w: World, p: int, uid: int)
    requires p in w.players
  {
    var before := w.players[p].uid;
    before != uid && before in w.uids && w.uids[before] == p
  }

  // Setting a uid keeps the index right exactly if the player is not bound
  // under another uid: the old binding is not removed.
  lemma SetUidBound(w: World, p: int, uid: int)
    requires Bound(w) && p in w.players
    ensures Bound(SetUid(w, p, uid)) <==> !BoundOtherwise(w, p, uid)
  {
    var before, w' := w.players[p].uid, SetUid(w, p, uid);
    if BoundOtherwise(w, p, uid) {
      assert before in w'.uids && w'.uids[before] == p && w'.players[p].uid == uid;
    }
  }

  // ----- what the operations do -----

  // The uid is in the index afterwards, and leads to the player exactly if it
  // led nowhere else before.
  lemma SetUidBinds(w: World, p: int, uid: int)
    requires p in w.players
    ensures var w' := SetUid(w, p, uid);
            && uid in w'.uids
            && (w'.uids[uid] == p <==> uid !in w.uids || w.uids[uid] == p)
            && (forall u | u in w.uids :: u in w'.uids && w'.uids[u] == w.uids[u])
            && (forall u | u in w'.uids :: u == uid || u in w.uids)
            && w'.players.Keys == w.players.Keys && w'.players[p].uid == uid
            && w'.players[p].cityList == w.players[p].cityList
            && (forall q | q in w.players && q != p :: w'.players[q] == w.players[q])
            && w'.cities == w.cities && w'.playerFree == w.playerFree && w'.cityFree == w.cityFree
  {
  }

  // A new player gets an index no player has, no uid and no cities; only when
  // every unit is taken is there none.
  lemma AddPlayerAdds(w: World)
    requires Sound(w)
    ensures AddPlayerOutcome(w) == NullDereference <==> forall i | 1 <= i <= w.playerTotal :: i in w.players
    ensures AddPlayerOutcome(w) == NullDereference ==> AddPlayer(w) == w
    ensures AddPlayerOutcome(w).Returned? ==>
              var p, w' := AddPlayerOutcome(w).value, AddPlayer(w);
              && 1 <= p <= w.playerTotal && p !in w.players
              && w'.players.Keys == w.players.Keys + {p}
              && (forall q | q in w.players :: w'.players[q] == w.players[q])
              && w'.players[p].uid == 0 && |w'.players[p].cityList| == 101
              && (forall k | 0 <= k < 101 :: w'.players[p].cityList[k] == 0)
              && w'.cities == w.cities && w'.uids == w.uids
  {
    if w.playerFree != [] {
      TakeFromPool(w.players.Keys, w.playerFree, w.playerTotal);
      assert w.playerFree[0] in w.playerFree;
    } else {
      assert forall i | 1 <= i <= w.playerTotal :: i in w.players.Keys || i in w.playerFree;
    }
  }

  // A new city gets an index no city has, says whose it is, and stands in the
  // first empty place of that player's list, which counts one more.
  lemma AddCityAdds(w: World, p: int)
    requires Sound(w) && Lists(w.players)
    ensures AddCity(w, p) != w <==> AddCityOutcome(w, p).Returned? && AddCityOutcome(w, p).value > 0
    ensures AddCityOutcome(w, p).Returned? && AddCityOutcome(w, p).value > 0 ==>
              var c, w' := AddCityOutcome(w, p).value, AddCity(w, p);
              && c !in w.cities && 1 <= c <= w.cityTotal && p in w.players
              && w'.cities == w.cities[c := City(p)]
              && w'.players.Keys == w.players.Keys && w'.uids == w.uids
              && (forall q | q in w.players && q != p :: w'.players[q] == w.players[q])
              && w'.players[p].uid == w.players[p].uid
              && EntersFirst(w.players[p].cityList, w'.players[p].cityList, c)
  {
    if p in w.players {
      EmptyAt(w.players[p].cityList);
      if w.cityFree != [] {
        TakeFromPool(w.cities.Keys, w.cityFree, w.cityTotal);
      }
      var list := w.players[p].cityList;
      var k := 1 + FirstEmpty(Entries(list));
      assert forall j | 1 <= j < k :: list[j] == Entries(list)[j - 1] != 0;
      if AddCity(w, p) != w {
        assert EntersAt(list, AddCity(w, p).players[p].cityList, w.cityFree[0], k);
      }
    }
  }

  ghost predicate EntersAt(before: seq<int>, after: seq<int>, c: int, k: int) {
    && |before| == |after| == 101 && 1 <= k < 100
    && before[k] == 0 && after[k] == c
    && (forall j | 1 <= j < k :: before[j] != 0)
    && (forall j | 1 <= j < 101 && j != k :: after[j] == before[j])
    && after[0] == before[0] + 1
  }

  ghost predicate EntersFirst(before: seq<int>, after: seq<int>, c: int) {
    exists k :: EntersAt(before, after, c, k)
  }

  // Deleting takes away the player and no other; its index is the next to be
  // handed out.
  lemma DelPlayerRemoves(w: World, p: int)
    requires Lists(w.players)
    ensures var w' := DelPlayer(w, p);
            if p in w.players then w'.players == w.players - {p} && AddPlayerOutcome(w') == Returned(p)
            else w' == w
  {
  }

  // ----- runs -----

  datatype Event = PlayerAdded | CityAdded(player: int) | PlayerDeleted(player: int) | UidSet(player: int, uid: int)

  ghost predicate Possible(w: World, e: Event) {
    match e
    case PlayerAdded => true
    case CityAdded(p) => Lists(w.players)
    case PlayerDeleted(p) => Lists(w.players)
    case UidSet(p, uid) => p in w.players
  }

  function Next(w: World, e: Event): World
    requires e.UidSet? ==> e.player in w.players
    requires e.CityAdded? || e.PlayerDeleted? ==> e.player in w.players ==> |w.players[e.player].cityList| == 101
  {
    match e
    case PlayerAdded => AddPlayer(w)
    case CityAdded(p) => AddCity(w, p)
    case PlayerDeleted(p) => DelPlayer(w, p)
    case UidSet(p, uid) => SetUid(w, p, uid)
  }

  // A player's first uid: it is not bound yet.
  ghost predicate FirstUid(w: World, e: Event) {
    e.UidSet? ==> e.player in w.players && !BoundOtherwise(w, e.player, e.uid)
  }

  ghost predicate IsRun(w: World, events: seq<Event>)
    decreases |events|
  {
    events == [] || (Possible(w, events[0]) && IsRun(Next(w, events[0]), events[1..]))
  }

  ghost predicate FirstUids(w: World, events: seq<Event>)
    requires IsRun(w, events)
    decreases |events|
  {
    events == [] || (FirstUid(w, events[0]) && FirstUids(Next(w, events[0]), events[1..]))
  }

  ghost function After(w: World, events: seq<Event>): World
    requires IsRun(w, events)
    decreases |events|
  {
    if events == [] then w else After(Next(w, events[0]), events[1..])
  }

  lemma NextSound(w: World, e: Event)
    requires Sound(w) && Possible(w, e)
    ensures Sound(Next(w, e))
  {
    match e
    case PlayerAdded => AddPlayerSound(w);
    case CityAdded(p) => AddCitySound(w, p);
    case PlayerDeleted(p) => DelPlayerSound(w, p);
    case UidSet(p, uid) => SetUidSound(w, p, uid);
  }

  lemma NextBound(w: World, e: Event)
    requires Sound(w) && Bound(w) && Possible(w, e)
    ensures FirstUid(w, e) <==> Bound(Next(w, e))
  {
    match e
    case PlayerAdded => AddPlayerBound(w);
    case CityAdded(p) => AddCityBound(w, p);
    case PlayerDeleted(p) => DelPlayerBound(w, p);
    case UidSet(p, uid) => SetUidBound(w, p, uid);
  }

  // A binding lasts just as long as its player: nothing else erases or
  // redirects it, not even another player's uid of the same value.
  lemma BindingLasts(w: World, e: Event, uid: int)
    requires Bound(w) && Possible(w, e) && uid in w.uids
    ensures uid in Next(w, e).uids <==> e != PlayerDeleted(w.uids[uid])
    ensures uid in Next(w, e).uids ==> Next(w, e).uids[uid] == w.uids[uid]
  {
  }

  // Over every run cities are owned rightly and counted exactly ...
  lemma {:induction false} SoundAlways(w: World, events: seq<Event>)
    requires Sound(w) && IsRun(w, events)
    ensures Sound(After(w, events))
    decreases |events|
  {
    if events != [] {
      NextSound(w, events[0]);
      SoundAlways(Next(w, events[0]), events[1..]);
    }
  }

  // ... and the uid index leads to live players, as long as no bound player
  // is given another uid.
  lemma {:induction false} BoundAlways(w: World, events: seq<Event>)
    requires Sound(w) && Bound(w) && IsRun(w, events) && FirstUids(w, events)
    ensures Bound(After(w, events))
    decreases |events|
  {
    if events != [] {
      NextSound(w, events[0]);
      NextBound(w, events[0]);
      BoundAlways(Next(w, events[0]), events[1..]);
    }
  }

  function Empty(playerTotal: nat, cityTotal: nat): World {
    World(map[], Range(1, playerTotal + 1), playerTotal, map[], Range(1, cityTotal + 1), cityTotal, map[])
  }

  lemma {:induction false} EmptyTally(n: nat)
    ensures Tally(map[], n) == 0
  {
    if n > 0 { EmptyTally(n - 1); }
  }

  lemma EmptySound(playerTotal: nat, cityTotal: nat)
    ensures Sound(Empty(playerTotal, cityTotal)) && Bound(Empty(playerTotal, cityTotal))
  {
    EmptyPool(playerTotal);
    EmptyPool(cityTotal);
    EmptyTally(playerTotal);
  }
}
