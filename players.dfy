/** The ordered player list of a room and the two list operations the lobby
    service runs over it: looking a player up by id (`Array.prototype.find`)
    and dropping every player with a given id (`Array.prototype.filter`). */
module Players {
  import opened Wrappers

  /** A member of a room: a stable user id and the id of its current socket. */
  datatype Player = Player(id: string, socketId: string)

  /** The ids of a player list, in list order. */
  function Ids(ps: seq<Player>): (r: seq<string>)
    ensures |r| == |ps| && forall i :: 0 <= i < |ps| ==> r[i] == ps[i].id
  {
    if |ps| == 0 then [] else [ps[0].id] + Ids(ps[1..])
  }

  /** No two entries of the list share an id. */
  ghost predicate UniqueIds(ps: seq<Player>)
  {
    forall i, j :: 0 <= i < j < |ps| ==> ps[i].id != ps[j].id
  }

  /** A player's id is among the ids of any list holding it. */
  lemma IdOfMember(ps: seq<Player>, p: Player)
    requires p in ps
    ensures p.id in Ids(ps)
  {
    var k :| 0 <= k < |ps| && ps[k] == p;
    assert Ids(ps)[k] == p.id;
  }

  /** The ids of a concatenation are the concatenated ids. */
  lemma IdsAppend(a: seq<Player>, b: seq<Player>)
    ensures Ids(a + b) == Ids(a) + Ids(b)
  {
  }

  /** Appending a player with a new id keeps ids unique and adds its id last. */
  lemma AppendFresh(ps: seq<Player>, p: Player)
    requires UniqueIds(ps) && p.id !in Ids(ps)
    ensures UniqueIds(ps + [p]) && Ids(ps + [p]) == Ids(ps) + [p.id]
  {
    var r := ps + [p];
    forall i, j | 0 <= i < j < |r| ensures r[i].id != r[j].id {
      if j == |ps| {
        assert Ids(ps)[i] == ps[i].id;
      }
    }
  }

  /** Replacing an entry by one with the same id leaves the ids as they were. */
  lemma ReplaceSameId(ps: seq<Player>, i: nat, p: Player)
    requires i < |ps| && p.id == ps[i].id
    ensures Ids(ps[i := p]) == Ids(ps)
    ensures UniqueIds(ps) ==> UniqueIds(ps[i := p])
  {
  }

  /** The position of the first player with id `id`, if any. */
  function FindIndex(ps: seq<Player>, id: string): (r: Option<nat>)
    ensures r.Some? ==> r.value < |ps| && ps[r.value].id == id
    ensures r.Some? ==> forall j :: 0 <= j < r.value ==> ps[j].id != id
    ensures r.None? ==> forall j :: 0 <= j < |ps| ==> ps[j].id != id
    ensures r.None? <==> id !in Ids(ps)
  {
    if |ps| == 0 then None
    else if ps[0].id == id then Some(0)
    else match FindIndex(ps[1..], id)
      case None => None
      case Some(k) => Some(k + 1)
  }

  /** The list with every player whose id is `id` dropped, the others kept in order. */
  function Without(ps: seq<Player>, id: string): (r: seq<Player>)
    ensures |r| <= |ps|
    ensures forall p :: p in r <==> p in ps && p.id != id
  {
    if |ps| == 0 then []
    else if ps[0].id == id then Without(ps[1..], id)
    else [ps[0]] + Without(ps[1..], id)
  }

  /** Filtering distributes over concatenation: the survivors of `a` come
      before the survivors of `b`, so the relative order of players is kept. */
  lemma {:induction false} WithoutAppend(a: seq<Player>, b: seq<Player>, id: string)
    ensures Without(a + b, id) == Without(a, id) + Without(b, id)
  {
    if |a| == 0 {
      assert a + b == b;
    } else {
      assert (a + b)[1..] == a[1..] + b;
      WithoutAppend(a[1..], b, id);
    }
  }

  /** Removing an id nobody has changes nothing. */
  lemma {:induction false} WithoutAbsent(ps: seq<Player>, id: string)
    requires id !in Ids(ps)
    ensures Without(ps, id) == ps
  {
    if |ps| > 0 {
      assert Ids(ps) == [ps[0].id] + Ids(ps[1..]);
      WithoutAbsent(ps[1..], id);
    }
  }

  /** Filtering keeps ids unique, and the removed id is gone. */
  lemma {:induction false} WithoutUnique(ps: seq<Player>, id: string)
    requires UniqueIds(ps)
    ensures UniqueIds(Without(ps, id))
    ensures id !in Ids(Without(ps, id))
  {
    var r := Without(ps, id);
    if |ps| > 0 {
      WithoutUnique(ps[1..], id);
      var t := Without(ps[1..], id);
      if ps[0].id != id {
        assert r == [ps[0]] + t;
        forall j | 0 < j < |r| ensures r[0].id != r[j].id {
          assert r[j] in t;
          var k :| 0 <= k < |ps[1..]| && ps[1..][k] == r[j];
          assert ps[k + 1] == r[j];
        }
      }
    }
  }

  /** In a list with unique ids, removing the id of entry `k` removes exactly
      that entry and leaves the others where they were relative to each other. */
  lemma {:induction false} RemovesExactlyOne(ps: seq<Player>, k: nat)
    requires UniqueIds(ps) && k < |ps|
    ensures Without(ps, ps[k].id) == ps[..k] + ps[k + 1..]
  {
    var id := ps[k].id;
    var pre, post := ps[..k], ps[k + 1..];
    assert ps == pre + ([ps[k]] + post);
    assert id !in Ids(pre) by {
      forall j | 0 <= j < |pre| ensures Ids(pre)[j] != id { assert pre[j] == ps[j]; }
    }
    assert id !in Ids(post) by {
      forall j | 0 <= j < |post| ensures Ids(post)[j] != id { assert post[j] == ps[k + 1 + j]; }
    }
    WithoutAppend(pre, [ps[k]] + post, id);
    WithoutAppend([ps[k]], post, id);
    WithoutAbsent(pre, id);
    WithoutAbsent(post, id);
    assert Without([ps[k]], id) == [];
  }

  /** The lookup loop behind `players.find(p => p.id === id)`. */
  method FindPlayer(ps: seq<Player>, id: string) returns (r: Option<nat>)
    ensures r == FindIndex(ps, id)
  {
    var i := 0;
    while i < |ps|
      invariant 0 <= i <= |ps|
      invariant forall j :: 0 <= j < i ==> ps[j].id != id
    {
      if ps[i].id == id {
        return Some(i);
      }
      i := i + 1;
    }
    return None;
  }

  /** The loop behind `players.filter(p => p.id !== id)`. */
  method RemovePlayer(ps: seq<Player>, id: string) returns (r: seq<Player>)
    ensures r == Without(ps, id)
  {
    r := [];
    var i := 0;
    while i < |ps|
      invariant 0 <= i <= |ps|
      invariant r == Without(ps[..i], id)
    {
      assert ps[..i + 1] == ps[..i] + [ps[i]];
      WithoutAppend(ps[..i], [ps[i]], id);
      if ps[i].id != id {
        r := r + [ps[i]];
      }
      i := i + 1;
    }
    assert ps[..i] == ps;
  }
}
