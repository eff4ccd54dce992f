// The object manager itself: two pools and the uid map, changed in place.
module ObjMgrModules {
  import opened ShmPools
  import opened ObjStates

  class ObjMgrModule {
    var uidToPlayerIdxMap: map<int, int>
    var playerPool: ShmPool<Player>
    var cityPool: ShmPool<City>

    ghost predicate Apart()
      reads `playerPool, `cityPool, playerPool, cityPool
    {
      && playerPool as object != cityPool && this as object != playerPool && this as object != cityPool
      && playerPool.pos as object != cityPool.pos && playerPool.mem as object != cityPool.mem
      && playerPool.mem as object != cityPool.pos && cityPool.mem as object != playerPool.pos
    }

    ghost predicate Valid()
      reads `playerPool, `cityPool, playerPool, playerPool.pos, playerPool.mem, cityPool, cityPool.pos, cityPool.mem
    {
      Apart() && playerPool.Valid() && cityPool.Valid() && Lists(playerPool.units)
    }

    ghost function Abstract(): World
      reads this, playerPool, cityPool
    {
      World(playerPool.units, playerPool.free, playerPool.totalUnitCount,
            cityPool.units, cityPool.free, cityPool.totalUnitCount, uidToPlayerIdxMap)
    }

    constructor (playerPoolSize: nat, cityPoolSize: nat)
      ensures Valid() && Abstract() == Empty(playerPoolSize, cityPoolSize)
    {
      uidToPlayerIdxMap := map[];
      var players := new ShmPool<Player>(playerPoolSize);
      var cities := new ShmPool<City>(cityPoolSize);
      playerPool, cityPool := players, cities;
    }

    method FindPlayerIdxByUid(uid: int) returns (playerIdx: int)
      ensures playerIdx == if uid in uidToPlayerIdxMap then uidToPlayerIdxMap[uid] else 0
    {
      if uid in uidToPlayerIdxMap {
        return uidToPlayerIdxMap[uid];
      }
      return 0;
    }

    method BindUidToPlayerIdx(uid: int, playerIdx: int)
      modifies `uidToPlayerIdxMap
      ensures uidToPlayerIdxMap == Bind(old(uidToPlayerIdxMap), uid, playerIdx)
    {
      if uid !in uidToPlayerIdxMap {
        uidToPlayerIdxMap := uidToPlayerIdxMap[uid := playerIdx];
      }
    }

    method EraseUidToPlayerIdx(uid: int, playerIdx: int)
      modifies `uidToPlayerIdxMap
      ensures uidToPlayerIdxMap == Erase(old(uidToPlayerIdxMap), uid, playerIdx)
    {
      if uid in uidToPlayerIdxMap {
        if uidToPlayerIdxMap[uid] == playerIdx {
          uidToPlayerIdxMap := uidToPlayerIdxMap - {uid};
        }
      }
    }

    method NewPlayer() returns (player: int)
      requires Valid()
      modifies playerPool`freeMemPos, playerPool`validUnitCount, playerPool`free, playerPool`units
      modifies playerPool.pos, playerPool.mem
      ensures Valid() && cityPool.units == old(cityPool.units) && cityPool.free == old(cityPool.free)
      ensures player == if old(playerPool.free) == [] then 0 else old(playerPool.free)[0]
      ensures player == 0 ==>
                && old(playerPool.free) == []
                && playerPool.free == old(playerPool.free) && playerPool.units == old(playerPool.units)
      ensures player != 0 ==>
                && old(playerPool.free) != [] && playerPool.free == old(playerPool.free)[1..]
                && playerPool.units == old(playerPool.units)[player := ZeroPlayer()]
                && playerPool.Allocated(player)
    {
      player := playerPool.AllocInit(ZeroPlayer());
    }

    method AddPlayer() returns (r: Outcome)
      requires Valid()
      modifies playerPool`freeMemPos, playerPool`validUnitCount, playerPool`free, playerPool`units
      modifies playerPool.pos, playerPool.mem
      ensures Valid()
      ensures r == AddPlayerOutcome(old(Abstract())) && Abstract() == ObjStates.AddPlayer(old(Abstract()))
    {
      var player := NewPlayer();
      if player == 0 {
        return NullDereference;
      }
      var playerIdx := GetPlayerIdx(player);
      return Returned(playerIdx);
    }

    method GetPlayer(playerIdx: int) returns (player: int)
      requires Valid()
      ensures player == if playerIdx in playerPool.units then playerIdx else 0
      ensures player == 0 <==> playerIdx !in playerPool.units
      ensures player != 0 ==> playerPool.Allocated(player) && player > 0
    {
      assert InUse(playerPool.units, playerIdx) <==> playerIdx in playerPool.units;
      if playerIdx <= 0 {
        return 0;
      }
      player := playerPool.Find(playerIdx);
    }

    method GetPlayerIdx(player: int) returns (playerIdx: int)
      requires Valid() && playerPool.Allocated(player)
      ensures playerIdx == player
    {
      var pos := playerPool.GetPos(player);
      return pos.value;
    }

    method GetCityIdx(city: int) returns (cityIdx: int)
      requires Valid() && cityPool.Allocated(city)
      ensures cityIdx == city
    {
      var pos := cityPool.GetPos(city);
      return pos.value;
    }

    method GetCity(cityIdx: int) returns (city: int)
      requires Valid()
      ensures city == if cityIdx in cityPool.units then cityIdx else 0
      ensures city == 0 <==> cityIdx !in cityPool.units
      ensures city != 0 ==> cityPool.Allocated(city) && 0 < city <= cityPool.totalUnitCount
    {
      assert InUse(cityPool.units, cityIdx) <==> cityIdx in cityPool.units;
      if cityIdx <= 0 {
        return 0;
      }
      city := cityPool.Find(cityIdx);
    }

    method DelCity(cityIdx: int)
      requires Valid()
      modifies cityPool`freeMemPos, cityPool`validUnitCount, cityPool`free, cityPool`units, cityPool.pos
      ensures Valid()
      ensures CityPool(cityPool.units, cityPool.free)
           == ObjStates.DelCity(CityPool(old(cityPool.units), old(cityPool.free)), cityIdx)
      ensures playerPool.units == old(playerPool.units) && playerPool.free == old(playerPool.free)
    {
      var city := GetCity(cityIdx);
      if city != 0 {
        var ok := cityPool.Release(city);
      }
    }

    // Deletes the cities in the player's list, if it counts any.
    method DelCitiesOf(list: seq<int>)
      requires Valid() && |list| == 101
      modifies cityPool`freeMemPos, cityPool`validUnitCount, cityPool`free, cityPool`units, cityPool.pos
      ensures Valid()
      ensures CityPool(cityPool.units, cityPool.free)
           == (var p := CityPool(old(cityPool.units), old(cityPool.free));
               if list[0] > 0 then DelCities(p, Entries(list)) else p)
      ensures playerPool.units == old(playerPool.units) && playerPool.free == old(playerPool.free)
    {
      if list[0] <= 0 {
        return;
      }
      ghost var goal := DelCities(CityPool(cityPool.units, cityPool.free), Entries(list));
      for i := 1 to MAX_CITY_NUM_PER_PLAYER
        invariant Valid()
        invariant playerPool.units == old(playerPool.units) && playerPool.free == old(playerPool.free)
        invariant DelCities(CityPool(cityPool.units, cityPool.free), Entries(list)[i - 1..]) == goal
      {
        ghost var rest := Entries(list)[i - 1..];
        assert rest[0] == list[i] && rest[1..] == Entries(list)[i..];
        if list[i] != 0 {
          DelCity(list[i]);
        }
      }
    }

    method FreePlayer(player: int)
      requires Valid() && playerPool.Allocated(player)
      modifies playerPool`freeMemPos, playerPool`validUnitCount, playerPool`free, playerPool`units, playerPool.pos
      ensures Valid() && cityPool.units == old(cityPool.units) && cityPool.free == old(cityPool.free)
      ensures playerPool.free == [player] + old(playerPool.free) && playerPool.units == old(playerPool.units) - {player}
    {
      var ok := playerPool.Release(player);
    }

    method DelPlayer(playerIdx0: int)
      requires Valid()
      modifies `uidToPlayerIdxMap
      modifies playerPool`freeMemPos, playerPool`validUnitCount, playerPool`free, playerPool`units, playerPool.pos
      modifies cityPool`freeMemPos, cityPool`validUnitCount, cityPool`free, cityPool`units, cityPool.pos
      ensures Valid()
      ensures Abstract() == ObjStates.DelPlayer(old(Abstract()), playerIdx0)
    {
      var player := GetPlayer(playerIdx0);
      if player == 0 {
        return;
      }
      var record := playerPool.Read(player);
      var playerIdx := GetPlayerIdx(player);
      EraseUidToPlayerIdx(record.uid, playerIdx);
      DelCitiesOf(record.cityList);
      FreePlayer(player);
    }

    // The first empty entry of the list, or 100 when the loop runs out.
    method EmptyEntry(list: seq<int>) returns (i: int)
      requires |list| == 101
      ensures i == 1 + FirstEmpty(Entries(list))
    {
      i := 1;
      while i < MAX_CITY_NUM_PER_PLAYER
        invariant 1 <= i <= 100
        invariant FirstEmpty(Entries(list)) == i - 1 + FirstEmpty(Entries(list)[i - 1..])
      {
        assert Entries(list)[i - 1..][0] == list[i] && Entries(list)[i - 1..][1..] == Entries(list)[i..];
        if list[i] == 0 {
          return;
        }
        i := i + 1;
      }
    }

    method NewCity(playerIdx: int) returns (city: int)
      requires Valid()
      modifies cityPool`freeMemPos, cityPool`validUnitCount, cityPool`free, cityPool`units, cityPool.pos, cityPool.mem
      ensures Valid() && playerPool.units == old(playerPool.units) && playerPool.free == old(playerPool.free)
      ensures city == if old(cityPool.free) == [] then 0 else old(cityPool.free)[0]
      ensures city == 0 ==>
                && old(cityPool.free) == []
                && cityPool.free == old(cityPool.free) && cityPool.units == old(cityPool.units)
      ensures city != 0 ==>
                && old(cityPool.free) != [] && cityPool.free == old(cityPool.free)[1..]
                && cityPool.units == old(cityPool.units)[city := City(playerIdx)] && cityPool.Allocated(city)
    {
      city := cityPool.AllocInit(City(playerIdx));
    }

    method WritePlayer(player: int, record: Player)
      requires Valid() && playerPool.Allocated(player) && |record.cityList| == 101
      modifies playerPool`units, playerPool.mem
      ensures Valid() && cityPool.units == old(cityPool.units) && cityPool.free == old(cityPool.free)
      ensures playerPool.units == old(playerPool.units)[player := record]
    {
      playerPool.Write(player, record);
    }

    // Allocates a city and enters it in the player's list at i.
    method FillEntry(player: int, playerIdx: int, i: nat) returns (r: Outcome)
      requires Valid() && playerPool.Allocated(player) && 1 <= i < 100
      modifies playerPool`units, playerPool.mem
      modifies cityPool`freeMemPos, cityPool`validUnitCount, cityPool`free, cityPool`units, cityPool.pos, cityPool.mem
      ensures Valid()
      ensures r == if old(cityPool.free) == [] then NullDereference else Returned(old(cityPool.free)[0])
      ensures r.NullDereference? ==>
                && playerPool.units == old(playerPool.units)
                && cityPool.units == old(cityPool.units) && cityPool.free == old(cityPool.free)
      ensures r.Returned? ==>
                && old(cityPool.free) != []
                && cityPool.free == old(cityPool.free)[1..]
                && cityPool.units == old(cityPool.units)[old(cityPool.free)[0] := City(playerIdx)]
                && player in old(playerPool.units) && |old(playerPool.units)[player].cityList| == 101
                && playerPool.units
                   == old(playerPool.units)[player := Filled(old(playerPool.units)[player], i, old(cityPool.free)[0])]
    {
      var record := playerPool.Read(player);
      var city := NewCity(playerIdx);
      if city == 0 {
        return NullDereference;
      }
      var cityIdx := GetCityIdx(city);
      WritePlayer(player, Filled(record, i, cityIdx));
      return Returned(cityIdx);
    }

    method AddCity(playerIdx: int) returns (r: Outcome)
      requires Valid()
      modifies playerPool`units, playerPool.mem
      modifies cityPool`freeMemPos, cityPool`validUnitCount, cityPool`free, cityPool`units, cityPool.pos, cityPool.mem
      ensures Valid()
      ensures r == AddCityOutcome(old(Abstract()), playerIdx)
      ensures Abstract() == ObjStates.AddCity(old(Abstract()), playerIdx)
    {
      var player := GetPlayer(playerIdx);
      if player == 0 {
        return Returned(-1);
      }
      var record := playerPool.Read(player);
      if record.cityList[0] >= MAX_CITY_NUM_PER_PLAYER {
        return Returned(-2);
      }
      var i := EmptyEntry(record.cityList);
      if i == MAX_CITY_NUM_PER_PLAYER {
        return Returned(-4);
      }
      r := FillEntry(player, playerIdx, i);
    }

    // Player::set_uid.
    method SetUid(player: int, uid: int)
      requires Valid() && playerPool.Allocated(player)
      modifies `uidToPlayerIdxMap, playerPool`units, playerPool.mem
      ensures Valid()
      ensures Abstract() == ObjStates.SetUid(old(Abstract()), player, uid)
    {
      var playerIdx := GetPlayerIdx(player);
      BindUidToPlayerIdx(uid, playerIdx);
      var record := playerPool.Read(player);
      WritePlayer(player, record.(uid := uid));
    }
  }
}
