/** The three favorite-link tables (FavoriteCharacters, FavoritePlanets,
    FavoriteVehicles): the queries the routes run on them, the cascades that
    prune them, and the resolution of links to their targets. */
module Links {
  import opened Json
  import opened Tables
  import opened Models

  /** Which links a query, a cascade or a row deletion keeps. */
  datatype Criterion =
    | ByPair(user: int, target: int)  // filter_by(user_id=..., <target>_id=...)
    | ByUser(user: int)               // the relationship user.favorite_<kind>
    | NotTarget(target: int)          // what survives the cascade from a deleted target
    | NotUser(user: int)              // what survives the cascade from a deleted user
    | NotId(id: int)                  // what survives db.session.delete(link)

  predicate Keeps(c: Criterion, l: Favorite) {
    match c
    case ByPair(u, t) => l.userId == u && l.targetId == t
    case ByUser(u) => l.userId == u
    case NotTarget(t) => l.targetId != t
    case NotUser(u) => l.userId != u
    case NotId(id) => l.id != id
  }

  /** The links that `c` keeps, in table order. */
  function Filter(links: seq<Favorite>, c: Criterion): (r: seq<Favorite>)
    ensures |r| <= |links|
    ensures forall l :: l in r <==> l in links && Keeps(c, l)
  {
    if links == [] then []
    else
      assert forall l :: l in links <==> l == links[0] || l in links[1..];
      if Keeps(c, links[0]) then [links[0]] + Filter(links[1..], c)
      else Filter(links[1..], c)
  }

  /** The links of user `u`: `user.favorite_<kind>`. */
  function LinksOf(links: seq<Favorite>, u: int): seq<Favorite> {
    Filter(links, ByUser(u))
  }

  /** Some link joins user `u` to target `t`. */
  predicate HasLink(links: seq<Favorite>, u: int, t: int) {
    exists l :: l in links && l.userId == u && l.targetId == t
  }

  /** The routes' test `len(favorites) > 0` on the filtered query decides `HasLink`. */
  lemma MatchingNonEmpty(links: seq<Favorite>, u: int, t: int)
    ensures |Filter(links, ByPair(u, t))| > 0 <==> HasLink(links, u, t)
  {
    var r := Filter(links, ByPair(u, t));
    if |r| > 0 { assert r[0] in r; }
    if HasLink(links, u, t) {
      var l :| l in links && l.userId == u && l.targetId == t;
      assert l in r;
    }
  }

  /** The primary key of each link table. */
  predicate IdsUnique(links: seq<Favorite>) {
    forall i, j :: 0 <= i < j < |links| ==> links[i].id != links[j].id
  }

  /** No (user, target) pair occurs twice: there are no duplicate favorites. */
  predicate PairsUnique(links: seq<Favorite>) {
    forall i, j :: 0 <= i < j < |links| ==>
      links[i].userId != links[j].userId || links[i].targetId != links[j].targetId
  }

  /** The primary key of a table, split at its first row. */
  lemma IdsUniqueCons(x: Favorite, s: seq<Favorite>)
    ensures IdsUnique([x] + s) <==> IdsUnique(s) && forall l :: l in s ==> l.id != x.id
  {
    var xs := [x] + s;
    assert forall i :: 0 <= i < |s| ==> xs[i + 1] == s[i];
    if IdsUnique(xs) {
      forall l | l in s ensures l.id != x.id {
        var k :| 0 <= k < |s| && s[k] == l;
        assert xs[0] == x && xs[k + 1] == l;
      }
    }
    if IdsUnique(s) && (forall l :: l in s ==> l.id != x.id) {
      forall i, j | 0 <= i < j < |xs| ensures xs[i].id != xs[j].id {
        if i == 0 { assert xs[j] == s[j - 1] && s[j - 1] in s; }
      }
    }
  }

  /** The no-duplicate-favorites rule, split at the first row. */
  lemma PairsUniqueCons(x: Favorite, s: seq<Favorite>)
    ensures PairsUnique([x] + s) <==>
              PairsUnique(s) && forall l :: l in s ==> l.userId != x.userId || l.targetId != x.targetId
  {
    var xs := [x] + s;
    assert forall i :: 0 <= i < |s| ==> xs[i + 1] == s[i];
    if PairsUnique(xs) {
      forall l | l in s ensures l.userId != x.userId || l.targetId != x.targetId {
        var k :| 0 <= k < |s| && s[k] == l;
        assert xs[0] == x && xs[k + 1] == l;
      }
    }
    if PairsUnique(s) && (forall l :: l in s ==> l.userId != x.userId || l.targetId != x.targetId) {
      forall i, j | 0 <= i < j < |xs|
        ensures xs[i].userId != xs[j].userId || xs[i].targetId != xs[j].targetId
      {
        if i == 0 { assert xs[j] == s[j - 1] && s[j - 1] in s; }
      }
    }
  }

  /** Keeping a subset of the links, as every query and cascade does, keeps
      both uniqueness properties. */
  lemma {:induction false} FilterKeepsUnique(links: seq<Favorite>, c: Criterion)
    ensures IdsUnique(links) ==> IdsUnique(Filter(links, c))
    ensures PairsUnique(links) ==> PairsUnique(Filter(links, c))
  {
    if links != [] {
      assert links == [links[0]] + links[1..];
      IdsUniqueCons(links[0], links[1..]);
      PairsUniqueCons(links[0], links[1..]);
      FilterKeepsUnique(links[1..], c);
      if Keeps(c, links[0]) {
        IdsUniqueCons(links[0], Filter(links[1..], c));
        PairsUniqueCons(links[0], Filter(links[1..], c));
      }
    }
  }

  /** Appending a link whose pair is absent keeps the pairs unique. */
  lemma {:induction false} AppendKeepsUnique(links: seq<Favorite>, f: Favorite)
    requires !HasLink(links, f.userId, f.targetId)
    ensures PairsUnique(links) ==> PairsUnique(links + [f])
    ensures IdsUnique(links) && (forall l :: l in links ==> l.id < f.id) ==> IdsUnique(links + [f])
  {
    var s := links + [f];
    if PairsUnique(links) {
      forall i, j | 0 <= i < j < |s| ensures s[i].userId != s[j].userId || s[i].targetId != s[j].targetId {
        if j == |links| { assert s[i] in links; }
      }
    }
    if IdsUnique(links) && (forall l :: l in links ==> l.id < f.id) {
      forall i, j | 0 <= i < j < |s| ensures s[i].id != s[j].id {
        if j == |links| { assert s[i] in links; }
      }
    }
  }

  /** Adding a link puts it at the end of the list it filters into, and
      leaves every other filtered list as it was. */
  lemma {:induction false} FilterAppend(links: seq<Favorite>, f: Favorite, c: Criterion)
    ensures Filter(links + [f], c) == Filter(links, c) + (if Keeps(c, f) then [f] else [])
  {
    if links != [] {
      assert (links + [f])[0] == links[0];
      assert (links + [f])[1..] == links[1..] + [f];
      FilterAppend(links[1..], f, c);
    } else {
      assert [f][1..] == [];
    }
  }

  /** The cascade on a user's deletion: no link of that user is left, and
      every other link stays. */
  lemma CascadeByUser(links: seq<Favorite>, u: int)
    ensures forall l :: l in Filter(links, NotUser(u)) ==> l.userId != u
    ensures forall l :: l in links && l.userId != u ==> l in Filter(links, NotUser(u))
  {
  }

  /** The cascade on a target's deletion: no link to that target is left, and
      every other link stays. */
  lemma CascadeByTarget(links: seq<Favorite>, t: int)
    ensures forall l :: l in Filter(links, NotTarget(t)) ==> l.targetId != t
    ensures forall l :: l in links && l.targetId != t ==> l in Filter(links, NotTarget(t))
  {
  }

  /** Two filters commute: e.g. a user's links after a cascade are the user's
      earlier links with the cascade applied. */
  lemma {:induction false} FilterCommutes(links: seq<Favorite>, c: Criterion, d: Criterion)
    ensures Filter(Filter(links, c), d) == Filter(Filter(links, d), c)
  {
    if links != [] {
      FilterCommutes(links[1..], c, d);
    }
  }

  /** A filter that rejects nothing returns the table unchanged. */
  lemma {:induction false} FilterKeepsAll(links: seq<Favorite>, c: Criterion)
    requires forall l :: l in links ==> Keeps(c, l)
    ensures Filter(links, c) == links
  {
    if links != [] {
      assert forall l :: l in links[1..] ==> l in links;
      FilterKeepsAll(links[1..], c);
    }
  }

  /** The position of the first link joining `u` to `t`, or |links| when none does. */
  function FirstIndex(links: seq<Favorite>, u: int, t: int): (i: nat)
    ensures i <= |links|
    ensures forall j :: 0 <= j < i ==> !Keeps(ByPair(u, t), links[j])
    ensures i < |links| ==> Keeps(ByPair(u, t), links[i])
    ensures i == |links| <==> !HasLink(links, u, t)
  {
    if links == [] then 0
    else if Keeps(ByPair(u, t), links[0]) then 0
    else
      var i := 1 + FirstIndex(links[1..], u, t);
      assert forall j :: 0 < j < |links| ==> links[j] == links[1..][j - 1];
      assert HasLink(links, u, t) ==> HasLink(links[1..], u, t) by {
        if HasLink(links, u, t) {
          var l :| l in links && l.userId == u && l.targetId == t;
          assert l != links[0];
          assert links == [links[0]] + links[1..];
        }
      }
      i
  }

  /** The table with its first link from `u` to `t` removed, and nothing else
      changed; the table itself when no link joins them. */
  function RemoveFirst(links: seq<Favorite>, u: int, t: int): seq<Favorite> {
    var i := FirstIndex(links, u, t);
    if i < |links| then links[..i] + links[i + 1..] else links
  }

  /** RemoveFirst removes exactly one link, the first match, when there is one. */
  lemma RemoveFirstRemovesOne(links: seq<Favorite>, u: int, t: int)
    ensures !HasLink(links, u, t) ==> RemoveFirst(links, u, t) == links
    ensures HasLink(links, u, t) ==>
              && FirstIndex(links, u, t) < |links|
              && |RemoveFirst(links, u, t)| == |links| - 1
              && multiset(links) == multiset(RemoveFirst(links, u, t)) + multiset{links[FirstIndex(links, u, t)]}
  {
    var i := FirstIndex(links, u, t);
    if i < |links| {
      SpliceMultiset(links, i);
    }
  }

  lemma SpliceMultiset(links: seq<Favorite>, i: int)
    requires 0 <= i < |links|
    ensures multiset(links) == multiset(links[..i] + links[i + 1..]) + multiset{links[i]}
  {
    var before, after := links[..i], links[i + 1..];
    assert links == before + [links[i]] + after;
    assert multiset(links) == multiset(before) + multiset{links[i]} + multiset(after);
    assert multiset(before + after) == multiset(before) + multiset(after);
  }

  /** The first row the filtered query returns is the first matching link. */
  lemma {:induction false} FirstMatchFirst(links: seq<Favorite>, u: int, t: int)
    requires HasLink(links, u, t)
    ensures Filter(links, ByPair(u, t)) != []
    ensures Filter(links, ByPair(u, t))[0] == links[FirstIndex(links, u, t)]
  {
    if !Keeps(ByPair(u, t), links[0]) {
      var i := FirstIndex(links, u, t);
      assert links[i] in links[1..] by { assert links[i] == links[1..][i - 1]; }
      FirstMatchFirst(links[1..], u, t);
    }
  }

  /** The route deletes the row `favorites[0]` of the filtered query, i.e. the
      row with that id; with unique link ids this is RemoveFirst. */
  lemma DeleteFirstMatch(links: seq<Favorite>, u: int, t: int)
    requires IdsUnique(links) && HasLink(links, u, t)
    ensures Filter(links, NotId(links[FirstIndex(links, u, t)].id)) == RemoveFirst(links, u, t)
  {
    FilterNotIdAt(links, FirstIndex(links, u, t));
  }

  /** With unique ids, dropping the link with the id at position i drops
      exactly position i. */
  lemma {:induction false} FilterNotIdAt(links: seq<Favorite>, i: int)
    requires IdsUnique(links) && 0 <= i < |links|
    ensures Filter(links, NotId(links[i].id)) == links[..i] + links[i + 1..]
  {
    var rest := links[1..];
    assert links == [links[0]] + rest;
    IdsUniqueCons(links[0], rest);
    if i == 0 {
      FilterKeepsAll(rest, NotId(links[0].id));
    } else {
      assert links[i] == rest[i - 1];
      assert links[0].id != links[i].id;
      FilterNotIdAt(rest, i - 1);
      assert links[..i] == [links[0]] + rest[..i - 1];
      assert links[i + 1..] == rest[i..];
    }
  }

  /** What `delete_favorite_*` does when a link matches: deleting the row of
      `favorites[0]` removes exactly the first link of the pair and, with no
      duplicate pairs, leaves none. */
  lemma DeleteFavoriteLink(links: seq<Favorite>, u: int, t: int)
    requires IdsUnique(links) && PairsUnique(links) && HasLink(links, u, t)
    ensures Filter(links, ByPair(u, t)) != []
    ensures Filter(links, NotId(Filter(links, ByPair(u, t))[0].id)) == RemoveFirst(links, u, t)
    ensures !HasLink(RemoveFirst(links, u, t), u, t)
  {
    FirstMatchFirst(links, u, t);
    DeleteFirstMatch(links, u, t);
    RemoveFirstClearsPair(links, u, t);
  }

  /** RemoveFirst keeps both uniqueness properties of a table with unique ids. */
  lemma RemoveFirstKeepsUnique(links: seq<Favorite>, u: int, t: int)
    requires IdsUnique(links)
    ensures IdsUnique(RemoveFirst(links, u, t))
    ensures PairsUnique(links) ==> PairsUnique(RemoveFirst(links, u, t))
    ensures forall l :: l in RemoveFirst(links, u, t) ==> l in links
  {
    if HasLink(links, u, t) {
      DeleteFirstMatch(links, u, t);
      FilterKeepsUnique(links, NotId(links[FirstIndex(links, u, t)].id));
    }
  }

  /** With no duplicate pairs, removing the first match leaves no link from
      `u` to `t`: after the delete route the target is no longer a favorite. */
  lemma RemoveFirstClearsPair(links: seq<Favorite>, u: int, t: int)
    requires PairsUnique(links)
    ensures !HasLink(RemoveFirst(links, u, t), u, t)
  {
    var i := FirstIndex(links, u, t);
    if i < |links| {
      var r := RemoveFirst(links, u, t);
      forall k | 0 <= k < |r| ensures !Keeps(ByPair(u, t), r[k]) {
        if k < i {
          assert r[k] == links[k];
        } else {
          assert r[k] == links[k + 1];
        }
      }
      forall l | l in r ensures !Keeps(ByPair(u, t), l) {
        var k :| 0 <= k < |r| && r[k] == l;
      }
    }
  }

  /** Every link resolves to a row of its target table. */
  predicate AllResolve<C(==)>(t: Table<C>, links: seq<Favorite>) {
    forall i :: 0 <= i < |links| ==> links[i].targetId in Ids(t)
  }

  /** `out` holds, entry for entry, the serialised target of each link. */
  predicate ResolvesTo<C(==)>(t: Table<C>, links: seq<Favorite>, serialize: Row<C> -> Object, out: seq<Object>) {
    && |out| == |links|
    && forall i :: 0 <= i < |links| ==>
         Find(t, links[i].targetId).Some? && out[i] == serialize(Find(t, links[i].targetId).value)
  }

  /** The loop of `get_favorites`: serialise the target of each link, in link
      order; `None` when a link's target is missing (the route then fails
      calling `serialize()` on `None`). */
  method Resolve<C(==)>(t: Table<C>, links: seq<Favorite>, serialize: Row<C> -> Object)
    returns (r: Option<seq<Object>>)
    ensures r.Some? <==> AllResolve(t, links)
    ensures r.Some? ==> ResolvesTo(t, links, serialize, r.value)
  {
    var out: seq<Object> := [];
    for i := 0 to |links|
      invariant |out| == i
      invariant forall k :: 0 <= k < i ==>
                  Find(t, links[k].targetId).Some? && out[k] == serialize(Find(t, links[k].targetId).value)
    {
      var target := Find(t, links[i].targetId);
      if target.None? {
        return None;
      }
      out := out + [serialize(target.value)];
    }
    return Some(out);
  }
}
