/** The catalog store the routes drive: four entity tables, three favorite-link
    tables, and one method per route. Each route is one atomic step: it
    either commits all its changes or none. */
module Catalog {
  import opened Json
  import opened Tables
  import opened Models
  import opened Links
  import opened Requests

  /** What a route replies, without the HTTP status code or the message text. */
  datatype Status =
    | Ok                          // the route's success message
    | NoBody                      // "You must add information in the body"
    | MissingField(key: string)   // "<field> is required" / "... is not optional"
    | NotFound(kind: Kind)        // "<kind> not found" / "<kind> doesnt exist"
    | AlreadyExists               // "Favorite already exists"
    | DoesNotExist                // "Favorite doesnt exist"
    | Fault                       // an uncaught exception: nothing is committed

  /** The whole database as a value: the tables and their id sequences. */
  datatype Db = Db(
    users: Table<UserCols>, characters: Table<CharacterCols>,
    planets: Table<PlanetCols>, vehicles: Table<VehicleCols>,
    favoriteCharacters: seq<Favorite>, favoritePlanets: seq<Favorite>, favoriteVehicles: seq<Favorite>,
    nextUserId: int, nextCharacterId: int, nextPlanetId: int, nextVehicleId: int,
    nextFavoriteCharacterId: int, nextFavoritePlanetId: int, nextFavoriteVehicleId: int)

  /** A link table's primary key, its no-duplicate-favorites rule, and fresh ids. */
  predicate LinksValid(links: seq<Favorite>, nextId: int) {
    IdsUnique(links) && PairsUnique(links) && forall l :: l in links ==> l.id < nextId
  }

  /** What every route preserves. Beyond the declared keys and constraints:
      a character link always names an existing character (its creation
      checks the character and the character's deletion cascades to it), and
      a vehicle link always names an existing user (its creation checks the
      user and the user's deletion cascades to it). Nothing of the kind holds
      for planet links, nor for the user of a character link. */
  ghost predicate Consistent(db: Db) {
    && TableValid(db.users, db.nextUserId)
    && TableValid(db.characters, db.nextCharacterId)
    && TableValid(db.planets, db.nextPlanetId)
    && TableValid(db.vehicles, db.nextVehicleId)
    && UsersConsistent(db.users)
    && CharactersConsistent(db.characters)
    && LinksValid(db.favoriteCharacters, db.nextFavoriteCharacterId)
    && LinksValid(db.favoritePlanets, db.nextFavoritePlanetId)
    && LinksValid(db.favoriteVehicles, db.nextFavoriteVehicleId)
    && (forall l :: l in db.favoriteCharacters ==> l.targetId in Ids(db.characters))
    && (forall l :: l in db.favoriteVehicles ==> l.userId in Ids(db.users))
  }

  // ---------------- the invariant across each kind of step ----------------

  /** Committing a new user that passes the commit check keeps the invariant. */
  lemma InsertUserKeeps(db: Db, cols: UserCols)
    requires Consistent(db) && UsersConsistent(db.users + [Row(db.nextUserId, cols)])
    ensures Consistent(db.(users := db.users + [Row(db.nextUserId, cols)], nextUserId := db.nextUserId + 1))
  {
    FindAfterAppend(db.users, Row(db.nextUserId, cols));
  }

  /** Committing a new character with a name keeps the invariant. */
  lemma InsertCharacterKeeps(db: Db, cols: CharacterCols)
    requires Consistent(db) && cols.name != Null
    ensures Consistent(db.(characters := db.characters + [Row(db.nextCharacterId, cols)],
                           nextCharacterId := db.nextCharacterId + 1))
  {
    var t := db.characters + [Row(db.nextCharacterId, cols)];
    FindAfterAppend(db.characters, Row(db.nextCharacterId, cols));
    forall i | 0 <= i < |t| ensures t[i].cols.name != Null {
      if i < |db.characters| {
        assert t[i] == db.characters[i];
      }
    }
  }

  lemma InsertPlanetKeeps(db: Db, cols: PlanetCols)
    requires Consistent(db)
    ensures Consistent(db.(planets := db.planets + [Row(db.nextPlanetId, cols)], nextPlanetId := db.nextPlanetId + 1))
  {
    FindAfterAppend(db.planets, Row(db.nextPlanetId, cols));
  }

  lemma InsertVehicleKeeps(db: Db, cols: VehicleCols)
    requires Consistent(db)
    ensures Consistent(db.(vehicles := db.vehicles + [Row(db.nextVehicleId, cols)], nextVehicleId := db.nextVehicleId + 1))
  {
    FindAfterAppend(db.vehicles, Row(db.nextVehicleId, cols));
  }

  /** Rewriting a stored user so that the table still passes the commit check keeps the invariant. */
  lemma UpdateUserKeeps(db: Db, id: int, cols: UserCols)
    requires Consistent(db) && id in Ids(db.users) && UsersConsistent(Replace(db.users, id, cols))
    ensures Consistent(db.(users := Replace(db.users, id, cols)))
  {
    ReplaceKeepsKeys(db.users, id, cols);
  }

  lemma UpdateCharacterKeeps(db: Db, id: int, cols: CharacterCols)
    requires Consistent(db) && id in Ids(db.characters) && cols.name != Null
    ensures Consistent(db.(characters := Replace(db.characters, id, cols)))
  {
    ReplaceKeepsKeys(db.characters, id, cols);
  }

  lemma UpdatePlanetKeeps(db: Db, id: int, cols: PlanetCols)
    requires Consistent(db) && id in Ids(db.planets)
    ensures Consistent(db.(planets := Replace(db.planets, id, cols)))
  {
    ReplaceKeepsKeys(db.planets, id, cols);
  }

  lemma UpdateVehicleKeeps(db: Db, id: int, cols: VehicleCols)
    requires Consistent(db) && id in Ids(db.vehicles)
    ensures Consistent(db.(vehicles := Replace(db.vehicles, id, cols)))
  {
    ReplaceKeepsKeys(db.vehicles, id, cols);
  }

  /** Deleting a user with its cascade keeps the invariant: no vehicle link is
      left naming the deleted user. */
  lemma DeleteUserKeeps(db: Db, id: int)
    requires Consistent(db)
    ensures Consistent(db.(users := Remove(db.users, id), favoriteVehicles := Filter(db.favoriteVehicles, NotUser(id))))
  {
    var users := Remove(db.users, id);
    var links := Filter(db.favoriteVehicles, NotUser(id));
    assert TableValid(users, db.nextUserId) by {
      forall r | r in users ensures r.id < db.nextUserId {
        var i :| 0 <= i < |users| && users[i] == r;
      }
    }
    assert UsersConsistent(users) by {
      RemoveKeepsUsersConsistent(db.users, id);
    }
    assert LinksValid(links, db.nextFavoriteVehicleId) by {
      FilterKeepsUnique(db.favoriteVehicles, NotUser(id));
    }
    assert forall l :: l in links ==> l.userId in Ids(users) by {
      CascadeByUser(db.favoriteVehicles, id);
    }
  }

  /** Deleting a character with its cascade keeps the invariant: no character
      link is left naming the deleted character. */
  lemma DeleteCharacterKeeps(db: Db, id: int)
    requires Consistent(db)
    ensures Consistent(db.(characters := Remove(db.characters, id),
                           favoriteCharacters := Filter(db.favoriteCharacters, NotTarget(id))))
  {
    RemoveKeepsCharactersConsistent(db.characters, id);
    FilterKeepsUnique(db.favoriteCharacters, NotTarget(id));
  }

  lemma DeletePlanetKeeps(db: Db, id: int)
    requires Consistent(db)
    ensures Consistent(db.(planets := Remove(db.planets, id), favoritePlanets := Filter(db.favoritePlanets, NotTarget(id))))
  {
    FilterKeepsUnique(db.favoritePlanets, NotTarget(id));
  }

  lemma DeleteVehicleKeeps(db: Db, id: int)
    requires Consistent(db)
    ensures Consistent(db.(vehicles := Remove(db.vehicles, id), favoriteVehicles := Filter(db.favoriteVehicles, NotTarget(id))))
  {
    FilterKeepsUnique(db.favoriteVehicles, NotTarget(id));
  }

  /** A new character link to an existing character, for a pair not yet
      linked, keeps the invariant. */
  lemma AddFavoriteCharacterKeeps(db: Db, u: int, t: int)
    requires Consistent(db) && t in Ids(db.characters) && !HasLink(db.favoriteCharacters, u, t)
    ensures Consistent(db.(favoriteCharacters := db.favoriteCharacters + [Favorite(db.nextFavoriteCharacterId, u, t)],
                           nextFavoriteCharacterId := db.nextFavoriteCharacterId + 1))
  {
    AppendKeepsUnique(db.favoriteCharacters, Favorite(db.nextFavoriteCharacterId, u, t));
  }

  /** A new planet link for a pair not yet linked keeps the invariant, whatever its target. */
  lemma AddFavoritePlanetKeeps(db: Db, u: int, t: int)
    requires Consistent(db) && !HasLink(db.favoritePlanets, u, t)
    ensures Consistent(db.(favoritePlanets := db.favoritePlanets + [Favorite(db.nextFavoritePlanetId, u, t)],
                           nextFavoritePlanetId := db.nextFavoritePlanetId + 1))
  {
    AppendKeepsUnique(db.favoritePlanets, Favorite(db.nextFavoritePlanetId, u, t));
  }

  /** A new vehicle link from an existing user, for a pair not yet linked,
      keeps the invariant, whatever its target. */
  lemma AddFavoriteVehicleKeeps(db: Db, u: int, t: int)
    requires Consistent(db) && u in Ids(db.users) && !HasLink(db.favoriteVehicles, u, t)
    ensures Consistent(db.(favoriteVehicles := db.favoriteVehicles + [Favorite(db.nextFavoriteVehicleId, u, t)],
                           nextFavoriteVehicleId := db.nextFavoriteVehicleId + 1))
  {
    AppendKeepsUnique(db.favoriteVehicles, Favorite(db.nextFavoriteVehicleId, u, t));
  }

  /** Removing the first link of a pair keeps the invariant. */
  lemma DeleteFavoriteCharacterKeeps(db: Db, u: int, t: int)
    requires Consistent(db)
    ensures Consistent(db.(favoriteCharacters := RemoveFirst(db.favoriteCharacters, u, t)))
  {
    RemoveFirstKeepsUnique(db.favoriteCharacters, u, t);
  }

  lemma DeleteFavoritePlanetKeeps(db: Db, u: int, t: int)
    requires Consistent(db)
    ensures Consistent(db.(favoritePlanets := RemoveFirst(db.favoritePlanets, u, t)))
  {
    RemoveFirstKeepsUnique(db.favoritePlanets, u, t);
  }

  lemma DeleteFavoriteVehicleKeeps(db: Db, u: int, t: int)
    requires Consistent(db)
    ensures Consistent(db.(favoriteVehicles := RemoveFirst(db.favoriteVehicles, u, t)))
  {
    RemoveFirstKeepsUnique(db.favoriteVehicles, u, t);
  }

  // ---------------- the defaults of the create routes ----------------

  /** The defaults step of `add_planet`: every optional key the body lacks gets its default. */
  method FillPlanetDefaults(body: Object) returns (c: PlanetCols)
    requires HasAll(body, PlanetRequired)
    ensures c == NewPlanet(body)
  {
    var b := body;
    assert PlanetRequired[0] in b;
    if "climate" !in b {
      b := b["climate" := Str("N/A")];
    }
    if "terrain" !in b {
      b := b["terrain" := Str("N/A")];
    }
    if "day_length_hours" !in b {
      b := b["day_length_hours" := Int(0)];
    }
    if "year_length_days" !in b {
      b := b["year_length_days" := Int(0)];
    }
    if "population" !in b {
      b := b["population" := Int(0)];
    }
    c := PlanetCols(b["planet_name"], b["climate"], b["terrain"],
                    b["day_length_hours"], b["year_length_days"], b["population"]);
  }

  /** The defaults step of `add_vehicle`: every optional key the body lacks gets its default. */
  method FillVehicleDefaults(body: Object) returns (c: VehicleCols)
    requires HasAll(body, VehicleRequired)
    ensures c == NewVehicle(body)
  {
    var b := body;
    assert VehicleRequired[0] in b;
    if "cargo_capacity" !in b {
      b := b["cargo_capacity" := Int(0)];
    }
    if "number_passengers" !in b {
      b := b["number_passengers" := Int(0)];
    }
    if "number_crew" !in b {
      b := b["number_crew" := Int(1)];
    }
    if "model" !in b {
      b := b["model" := Str("N/A")];
    }
    if "cost" !in b {
      b := b["cost" := Int(0)];
    }
    c := VehicleCols(b["vehicle_name"], b["cargo_capacity"], b["number_passengers"],
                 b["number_crew"], b["model"], b["cost"]);
  }

  // ---------------- the field copies of the update routes ----------------

  /** The field-by-field copy of `update_user`: each column the body names is overwritten. */
  method CopyUserFields(c: UserCols, body: Object) returns (r: UserCols)
    ensures r == PatchUser(c, body)
  {
    r := c;
    if "email" in body {
      r := r.(email := body["email"]);
    }
    if "password" in body {
      r := r.(password := body["password"]);
    }
    if "username" in body {
      r := r.(username := body["username"]);
    }
    if "first_name" in body {
      r := r.(firstName := body["first_name"]);
    }
    if "last_name" in body {
      r := r.(lastName := body["last_name"]);
    }
  }

  /** The field-by-field copy of `update_character`: each column the body names is overwritten. */
  method CopyCharacterFields(c: CharacterCols, body: Object) returns (r: CharacterCols)
    ensures r == PatchCharacter(c, body)
  {
    r := c;
    if "name" in body {
      r := r.(name := body["name"]);
    }
    if "gender" in body {
      r := r.(gender := body["gender"]);
    }
    if "height" in body {
      r := r.(height := body["height"]);
    }
    if "weight" in body {
      r := r.(weight := body["weight"]);
    }
    if "birthdate" in body {
      r := r.(birthdate := body["birthdate"]);
    }
  }

  /** The field-by-field copy of `update_planet`: each column the body names is overwritten. */
  method CopyPlanetFields(c: PlanetCols, body: Object) returns (r: PlanetCols)
    ensures r == PatchPlanet(c, body)
  {
    r := c;
    if "planet_name" in body {
      r := r.(planetName := body["planet_name"]);
    }
    if "climate" in body {
      r := r.(climate := body["climate"]);
    }
    if "terrain" in body {
      r := r.(terrain := body["terrain"]);
    }
    if "day_length_hours" in body {
      r := r.(dayLengthHours := body["day_length_hours"]);
    }
    if "year_length_days" in body {
      r := r.(yearLengthDays := body["year_length_days"]);
    }
    if "population" in body {
      r := r.(population := body["population"]);
    }
  }

  /** The field-by-field copy of `update_vehicle`: each column the body names is overwritten. */
  method CopyVehicleFields(c: VehicleCols, body: Object) returns (r: VehicleCols)
    ensures r == PatchVehicle(c, body)
  {
    r := c;
    if "vehicle_name" in body {
      r := r.(vehicleName := body["vehicle_name"]);
    }
    if "cargo_capacity" in body {
      r := r.(cargoCapacity := body["cargo_capacity"]);
    }
    if "number_passengers" in body {
      r := r.(numberPassengers := body["number_passengers"]);
    }
    if "number_crew" in body {
      r := r.(numberCrew := body["number_crew"]);
    }
    if "model" in body {
      r := r.(model := body["model"]);
    }
    if "cost" in body {
      r := r.(cost := body["cost"]);
    }
  }

  /** The three lists `get_favorites` returns. */
  datatype FavoritesView = FavoritesView(characters: seq<Object>, planets: seq<Object>, vehicles: seq<Object>)

  class Store {
    var users: Table<UserCols>
    var characters: Table<CharacterCols>
    var planets: Table<PlanetCols>
    var vehicles: Table<VehicleCols>
    var favoriteCharacters: seq<Favorite>
    var favoritePlanets: seq<Favorite>
    var favoriteVehicles: seq<Favorite>
    // the id sequence of each table
    var nextUserId: int
    var nextCharacterId: int
    var nextPlanetId: int
    var nextVehicleId: int
    var nextFavoriteCharacterId: int
    var nextFavoritePlanetId: int
    var nextFavoriteVehicleId: int

    ghost function State(): Db
      reads this
    {
      Db(users, characters, planets, vehicles, favoriteCharacters, favoritePlanets, favoriteVehicles,
         nextUserId, nextCharacterId, nextPlanetId, nextVehicleId,
         nextFavoriteCharacterId, nextFavoritePlanetId, nextFavoriteVehicleId)
    }

    ghost predicate Valid()
      reads this
    {
      Consistent(State())
    }

    /** An empty database. */
    constructor ()
      ensures Valid()
      ensures State() == Db([], [], [], [], [], [], [], 1, 1, 1, 1, 1, 1, 1)
    {
      users, characters, planets, vehicles := [], [], [], [];
      favoriteCharacters, favoritePlanets, favoriteVehicles := [], [], [];
      nextUserId, nextCharacterId, nextPlanetId, nextVehicleId := 1, 1, 1, 1;
      nextFavoriteCharacterId, nextFavoritePlanetId, nextFavoriteVehicleId := 1, 1, 1;
    }

    // ---------------- list and lookup routes ----------------

    method GetUsers() returns (out: seq<Object>)
      ensures |out| == |users|
      ensures forall i :: 0 <= i < |users| ==> out[i] == SerializeUser(users[i])
    {
      out := SerializeAll(users, SerializeUser);
    }

    method GetCharacters() returns (out: seq<Object>)
      ensures |out| == |characters|
      ensures forall i :: 0 <= i < |characters| ==> out[i] == SerializeCharacter(characters[i])
    {
      out := SerializeAll(characters, SerializeCharacter);
    }

    method GetPlanets() returns (out: seq<Object>)
      ensures |out| == |planets|
      ensures forall i :: 0 <= i < |planets| ==> out[i] == SerializePlanet(planets[i])
    {
      out := SerializeAll(planets, SerializePlanet);
    }

    method GetVehicles() returns (out: seq<Object>)
      ensures |out| == |vehicles|
      ensures forall i :: 0 <= i < |vehicles| ==> out[i] == SerializeVehicle(vehicles[i])
    {
      out := SerializeAll(vehicles, SerializeVehicle);
    }

    method GetUser(id: int) returns (r: Option<Object>)
      ensures r.None? <==> id !in Ids(users)
      ensures r.Some? ==> exists u :: u in users && u.id == id && r.value == SerializeUser(u)
    {
      var user := Find(users, id);
      if user.None? {
        return None;
      }
      return Some(SerializeUser(user.value));
    }

    method GetCharacter(id: int) returns (r: Option<Object>)
      ensures r.None? <==> id !in Ids(characters)
      ensures r.Some? ==> exists c :: c in characters && c.id == id && r.value == SerializeCharacter(c)
    {
      var character := Find(characters, id);
      if character.None? {
        return None;
      }
      return Some(SerializeCharacter(character.value));
    }

    method GetPlanet(id: int) returns (r: Option<Object>)
      ensures r.None? <==> id !in Ids(planets)
      ensures r.Some? ==> exists p :: p in planets && p.id == id && r.value == SerializePlanet(p)
    {
      var planet := Find(planets, id);
      if planet.None? {
        return None;
      }
      return Some(SerializePlanet(planet.value));
    }

    method GetVehicle(id: int) returns (r: Option<Object>)
      ensures r.None? <==> id !in Ids(vehicles)
      ensures r.Some? ==> exists v :: v in vehicles && v.id == id && r.value == SerializeVehicle(v)
    {
      var vehicle := Find(vehicles, id);
      if vehicle.None? {
        return None;
      }
      return Some(SerializeVehicle(vehicle.value));
    }

    // ---------------- commit of a new row ----------------

    /** `db.session.add(row)` followed by `db.session.commit()` for a row whose
        constraints hold: the row takes the next id of its table. */
    method InsertUser(cols: UserCols) returns (id: int)
      requires Valid() && UsersConsistent(users + [Row(nextUserId, cols)])
      modifies this
      ensures Valid()
      ensures id == old(nextUserId) && id !in Ids(old(users))
      ensures State() == old(State()).(users := old(users) + [Row(id, cols)], nextUserId := id + 1)
      ensures Find(users, id) == Some(Row(id, cols))
    {
      var row := Row(nextUserId, cols);
      assert Find(users + [row], row.id) == Some(row) && row.id !in Ids(users) by {
        FindAfterAppend(users, row);
      }
      InsertUserKeeps(State(), cols);
      users := users + [row];
      id := nextUserId;
      nextUserId := nextUserId + 1;
    }

    method InsertCharacter(cols: CharacterCols) returns (id: int)
      requires Valid() && cols.name != Null
      modifies this
      ensures Valid()
      ensures id == old(nextCharacterId) && id !in Ids(old(characters))
      ensures State() == old(State()).(characters := old(characters) + [Row(id, cols)], nextCharacterId := id + 1)
      ensures Find(characters, id) == Some(Row(id, cols))
    {
      var row := Row(nextCharacterId, cols);
      assert Find(characters + [row], row.id) == Some(row) && row.id !in Ids(characters) by {
        FindAfterAppend(characters, row);
      }
      InsertCharacterKeeps(State(), cols);
      characters := characters + [row];
      id := nextCharacterId;
      nextCharacterId := nextCharacterId + 1;
    }

    method InsertPlanet(cols: PlanetCols) returns (id: int)
      requires Valid()
      modifies this
      ensures Valid()
      ensures id == old(nextPlanetId) && id !in Ids(old(planets))
      ensures State() == old(State()).(planets := old(planets) + [Row(id, cols)], nextPlanetId := id + 1)
      ensures Find(planets, id) == Some(Row(id, cols))
    {
      var row := Row(nextPlanetId, cols);
      assert Find(planets + [row], row.id) == Some(row) && row.id !in Ids(planets) by {
        FindAfterAppend(planets, row);
      }
      InsertPlanetKeeps(State(), cols);
      planets := planets + [row];
      id := nextPlanetId;
      nextPlanetId := nextPlanetId + 1;
    }

    method InsertVehicle(cols: VehicleCols) returns (id: int)
      requires Valid()
      modifies this
      ensures Valid()
      ensures id == old(nextVehicleId) && id !in Ids(old(vehicles))
      ensures State() == old(State()).(vehicles := old(vehicles) + [Row(id, cols)], nextVehicleId := id + 1)
      ensures Find(vehicles, id) == Some(Row(id, cols))
    {
      var row := Row(nextVehicleId, cols);
      assert Find(vehicles + [row], row.id) == Some(row) && row.id !in Ids(vehicles) by {
        FindAfterAppend(vehicles, row);
      }
      InsertVehicleKeeps(State(), cols);
      vehicles := vehicles + [row];
      id := nextVehicleId;
      nextVehicleId := nextVehicleId + 1;
    }

    // ---------------- commit of an update or a link change ----------------

    /** The update routes' `db.session.commit()` for columns whose constraints
        hold: the row keeps its place and its key. */
    method ReplaceUser(id: int, cols: UserCols)
      requires Valid() && id in Ids(users) && UsersConsistent(Replace(users, id, cols))
      modifies this
      ensures Valid()
      ensures State() == old(State()).(users := Replace(old(users), id, cols))
      ensures Find(users, id) == Some(Row(id, cols))
    {
      assert Find(Replace(users, id, cols), id) == Some(Row(id, cols)) by {
        FindAfterReplace(users, id, cols);
      }
      UpdateUserKeeps(State(), id, cols);
      users := Replace(users, id, cols);
    }

    method ReplaceCharacter(id: int, cols: CharacterCols)
      requires Valid() && id in Ids(characters) && cols.name != Null
      modifies this
      ensures Valid()
      ensures State() == old(State()).(characters := Replace(old(characters), id, cols))
      ensures Find(characters, id) == Some(Row(id, cols))
    {
      assert Find(Replace(characters, id, cols), id) == Some(Row(id, cols)) by {
        FindAfterReplace(characters, id, cols);
      }
      UpdateCharacterKeeps(State(), id, cols);
      characters := Replace(characters, id, cols);
    }

    method ReplacePlanet(id: int, cols: PlanetCols)
      requires Valid() && id in Ids(planets)
      modifies this
      ensures Valid()
      ensures State() == old(State()).(planets := Replace(old(planets), id, cols))
      ensures Find(planets, id) == Some(Row(id, cols))
    {
      assert Find(Replace(planets, id, cols), id) == Some(Row(id, cols)) by {
        FindAfterReplace(planets, id, cols);
      }
      UpdatePlanetKeeps(State(), id, cols);
      planets := Replace(planets, id, cols);
    }

    method ReplaceVehicle(id: int, cols: VehicleCols)
      requires Valid() && id in Ids(vehicles)
      modifies this
      ensures Valid()
      ensures State() == old(State()).(vehicles := Replace(old(vehicles), id, cols))
      ensures Find(vehicles, id) == Some(Row(id, cols))
    {
      assert Find(Replace(vehicles, id, cols), id) == Some(Row(id, cols)) by {
        FindAfterReplace(vehicles, id, cols);
      }
      UpdateVehicleKeeps(State(), id, cols);
      vehicles := Replace(vehicles, id, cols);
    }

    /** `db.session.add(link)` and commit: the link takes the next id of its table. */
    method LinkCharacter(userId: int, targetId: int)
      requires Valid() && !HasLink(favoriteCharacters, userId, targetId) && targetId in Ids(characters)
      modifies this
      ensures Valid()
      ensures State() == old(State()).(
                favoriteCharacters := old(favoriteCharacters) + [Favorite(old(nextFavoriteCharacterId), userId, targetId)],
                nextFavoriteCharacterId := old(nextFavoriteCharacterId) + 1)
    {
      AddFavoriteCharacterKeeps(State(), userId, targetId);
      favoriteCharacters := favoriteCharacters + [Favorite(nextFavoriteCharacterId, userId, targetId)];
      nextFavoriteCharacterId := nextFavoriteCharacterId + 1;
    }

    /** `db.session.delete(link)` for the first link of the pair: the pair's
        first link, and no other, leaves the table. */
    method UnlinkCharacter(userId: int, targetId: int, link: Favorite)
      requires Valid() && Filter(favoriteCharacters, ByPair(userId, targetId)) != []
      requires link == Filter(favoriteCharacters, ByPair(userId, targetId))[0]
      modifies this
      ensures Valid()
      ensures State() == old(State()).(favoriteCharacters := RemoveFirst(old(favoriteCharacters), userId, targetId))
      ensures !HasLink(favoriteCharacters, userId, targetId)
    {
      MatchingNonEmpty(favoriteCharacters, userId, targetId);
      DeleteFavoriteLink(favoriteCharacters, userId, targetId);
      DeleteFavoriteCharacterKeeps(State(), userId, targetId);
      favoriteCharacters := Filter(favoriteCharacters, NotId(link.id));
    }

    method LinkPlanet(userId: int, targetId: int)
      requires Valid() && !HasLink(favoritePlanets, userId, targetId)
      modifies this
      ensures Valid()
      ensures State() == old(State()).(
                favoritePlanets := old(favoritePlanets) + [Favorite(old(nextFavoritePlanetId), userId, targetId)],
                nextFavoritePlanetId := old(nextFavoritePlanetId) + 1)
    {
      AddFavoritePlanetKeeps(State(), userId, targetId);
      favoritePlanets := favoritePlanets + [Favorite(nextFavoritePlanetId, userId, targetId)];
      nextFavoritePlanetId := nextFavoritePlanetId + 1;
    }

    method UnlinkPlanet(userId: int, targetId: int, link: Favorite)
      requires Valid() && Filter(favoritePlanets, ByPair(userId, targetId)) != []
      requires link == Filter(favoritePlanets, ByPair(userId, targetId))[0]
      modifies this
      ensures Valid()
      ensures State() == old(State()).(favoritePlanets := RemoveFirst(old(favoritePlanets), userId, targetId))
      ensures !HasLink(favoritePlanets, userId, targetId)
    {
      MatchingNonEmpty(favoritePlanets, userId, targetId);
      DeleteFavoriteLink(favoritePlanets, userId, targetId);
      DeleteFavoritePlanetKeeps(State(), userId, targetId);
      favoritePlanets := Filter(favoritePlanets, NotId(link.id));
    }

    method LinkVehicle(userId: int, targetId: int)
      requires Valid() && !HasLink(favoriteVehicles, userId, targetId) && userId in Ids(users)
      modifies this
      ensures Valid()
      ensures State() == old(State()).(
                favoriteVehicles := old(favoriteVehicles) + [Favorite(old(nextFavoriteVehicleId), userId, targetId)],
                nextFavoriteVehicleId := old(nextFavoriteVehicleId) + 1)
    {
      AddFavoriteVehicleKeeps(State(), userId, targetId);
      favoriteVehicles := favoriteVehicles + [Favorite(nextFavoriteVehicleId, userId, targetId)];
      nextFavoriteVehicleId := nextFavoriteVehicleId + 1;
    }

    method UnlinkVehicle(userId: int, targetId: int, link: Favorite)
      requires Valid() && Filter(favoriteVehicles, ByPair(userId, targetId)) != []
      requires link == Filter(favoriteVehicles, ByPair(userId, targetId))[0]
      modifies this
      ensures Valid()
      ensures State() == old(State()).(favoriteVehicles := RemoveFirst(old(favoriteVehicles), userId, targetId))
      ensures !HasLink(favoriteVehicles, userId, targetId)
    {
      MatchingNonEmpty(favoriteVehicles, userId, targetId);
      DeleteFavoriteLink(favoriteVehicles, userId, targetId);
      DeleteFavoriteVehicleKeeps(State(), userId, targetId);
      favoriteVehicles := Filter(favoriteVehicles, NotId(link.id));
    }

    // ---------------- create routes ----------------

    method AddUser(body: Option<Object>) returns (s: Status, id: int)
      requires Valid()
      modifies this
      ensures Valid()
      ensures s == Ok || s == NoBody || s.MissingField? || s == Fault
      ensures s == NoBody <==> body.None?
      ensures s.MissingField? <==> body.Some? && FirstMissing(body.value, UserRequired).Some?
      ensures s.MissingField? ==> FirstMissing(body.value, UserRequired) == Some(s.key)
      ensures s == Ok || s == Fault ==> body.Some? && HasAll(body.value, UserRequired)
      ensures s == Fault <==> body.Some? && HasAll(body.value, UserRequired)
                              && !UsersConsistent(old(users) + [Row(old(nextUserId), NewUser(body.value))])
      ensures s == Ok ==> id == old(nextUserId) && id !in Ids(old(users))
      ensures s == Ok ==> State() == old(State()).(users := old(users) + [Row(id, NewUser(body.value))],
                                                   nextUserId := id + 1)
      ensures s == Ok ==> Find(users, id) == Some(Row(id, NewUser(body.value)))
      ensures s != Ok ==> State() == old(State())
    {
      id := 0;
      if body.None? {
        return NoBody, id;
      }
      var b := body.value;
      var missing := FirstMissing(b, UserRequired);
      if missing.Some? {
        return MissingField(missing.value), id;
      }
      assert UserRequired[0] in b && UserRequired[1] in b && UserRequired[2] in b
             && UserRequired[3] in b && UserRequired[4] in b;
      var row := Row(nextUserId, UserCols(b["email"], b["password"], b["username"], b["first_name"], b["last_name"]));
      // the unique and non-null constraints are checked when the row is committed
      if !UsersConsistent(users + [row]) {
        return Fault, id;
      }
      id := InsertUser(row.cols);
      s := Ok;
    }

    method AddCharacter(body: Option<Object>) returns (s: Status, id: int)
      requires Valid()
      modifies this
      ensures Valid()
      ensures s == Ok || s == NoBody || s.MissingField? || s == Fault
      ensures s == NoBody <==> body.None?
      ensures s.MissingField? <==> body.Some? && FirstMissing(body.value, CharacterRequired).Some?
      ensures s.MissingField? ==> FirstMissing(body.value, CharacterRequired) == Some(s.key)
      ensures s == Ok || s == Fault ==> body.Some? && HasAll(body.value, CharacterRequired)
      ensures s == Fault <==> body.Some? && HasAll(body.value, CharacterRequired) && body.value["name"] == Null
      ensures s == Ok ==> id == old(nextCharacterId) && id !in Ids(old(characters))
      ensures s == Ok ==> State() == old(State()).(characters := old(characters) + [Row(id, NewCharacter(body.value))],
                                                   nextCharacterId := id + 1)
      ensures s == Ok ==> Find(characters, id) == Some(Row(id, NewCharacter(body.value)))
      ensures s != Ok ==> State() == old(State())
    {
      id := 0;
      if body.None? {
        return NoBody, id;
      }
      var b := body.value;
      var missing := FirstMissing(b, CharacterRequired);
      if missing.Some? {
        return MissingField(missing.value), id;
      }
      assert CharacterRequired[0] in b && CharacterRequired[1] in b && CharacterRequired[2] in b;
      if "gender" !in b {
        b := b["gender" := Str("N/A")];
      }
      if "birthdate" !in b {
        b := b["birthdate" := Str("N/A")];
      }
      var row := Row(nextCharacterId, CharacterCols(b["name"], b["gender"], b["height"], b["weight"], b["birthdate"]));
      assert row.cols == NewCharacter(body.value);
      // `name` is declared non-null; the database refuses the row at commit
      if row.cols.name == Null {
        assert (characters + [row])[|characters|] == row;
        return Fault, id;
      }
      id := InsertCharacter(row.cols);
      s := Ok;
    }

    /** Unlike add_user and add_character, add_planet does not test for a
        missing body; `'planet_name' not in None` raises. */
    method AddPlanet(body: Option<Object>) returns (s: Status, id: int)
      requires Valid()
      modifies this
      ensures Valid()
      ensures s == Fault <==> body.None?
      ensures s.MissingField? <==> body.Some? && FirstMissing(body.value, PlanetRequired).Some?
      ensures s.MissingField? ==> FirstMissing(body.value, PlanetRequired) == Some(s.key)
      ensures s == Ok <==> body.Some? && HasAll(body.value, PlanetRequired)
      ensures s == Ok ==> id == old(nextPlanetId) && id !in Ids(old(planets))
      ensures s == Ok ==> State() == old(State()).(planets := old(planets) + [Row(id, NewPlanet(body.value))],
                                                   nextPlanetId := id + 1)
      ensures s == Ok ==> Find(planets, id) == Some(Row(id, NewPlanet(body.value)))
      ensures s != Ok ==> State() == old(State())
    {
      id := 0;
      if body.None? {
        return Fault, id;
      }
      var b := body.value;
      var missing := FirstMissing(b, PlanetRequired);
      if missing.Some? {
        return MissingField(missing.value), id;
      }
      var cols := FillPlanetDefaults(b);
      id := InsertPlanet(cols);
      s := Ok;
    }

    /** Like add_planet, add_vehicle does not test for a missing body. */
    method AddVehicle(body: Option<Object>) returns (s: Status, id: int)
      requires Valid()
      modifies this
      ensures Valid()
      ensures s == Fault <==> body.None?
      ensures s.MissingField? <==> body.Some? && FirstMissing(body.value, VehicleRequired).Some?
      ensures s.MissingField? ==> FirstMissing(body.value, VehicleRequired) == Some(s.key)
      ensures s == Ok <==> body.Some? && HasAll(body.value, VehicleRequired)
      ensures s == Ok ==> id == old(nextVehicleId) && id !in Ids(old(vehicles))
      ensures s == Ok ==> State() == old(State()).(vehicles := old(vehicles) + [Row(id, NewVehicle(body.value))],
                                                   nextVehicleId := id + 1)
      ensures s == Ok ==> Find(vehicles, id) == Some(Row(id, NewVehicle(body.value)))
      ensures s != Ok ==> State() == old(State())
    {
      id := 0;
      if body.None? {
        return Fault, id;
      }
      var b := body.value;
      var missing := FirstMissing(b, VehicleRequired);
      if missing.Some? {
        return MissingField(missing.value), id;
      }
      var cols := FillVehicleDefaults(b);
      id := InsertVehicle(cols);
      s := Ok;
    }

    // ---------------- update routes ----------------

    method UpdateUser(id: int, body: Option<Object>) returns (s: Status)
      requires Valid()
      modifies this
      ensures Valid()
      ensures s == NotFound(User) <==> id !in Ids(old(users))
      ensures s == Ok || s == NotFound(User) || s == Fault
      ensures s == Ok <==> id in Ids(old(users)) && body.Some?
                           && UsersConsistent(Replace(old(users), id, PatchUser(Find(old(users), id).value.cols, body.value)))
      ensures s == Ok ==> State() == old(State()).(users := Replace(old(users), id, PatchUser(Find(old(users), id).value.cols, body.value)))
      ensures s == Ok ==> Find(users, id) == Some(Row(id, PatchUser(Find(old(users), id).value.cols, body.value)))
      ensures s != Ok ==> State() == old(State())
    {
      var user := Find(users, id);
      if user.None? {
        return NotFound(User);
      }
      if body.None? {
        return Fault;
      }
      var b := body.value;
      var c := CopyUserFields(user.value.cols, b);
      var t := Replace(users, id, c);
      // a reused email or username, or a null, is refused at commit
      if !UsersConsistent(t) {
        return Fault;
      }
      ReplaceUser(id, c);
      s := Ok;
    }

    method UpdateCharacter(id: int, body: Option<Object>) returns (s: Status)
      requires Valid()
      modifies this
      ensures Valid()
      ensures s == NotFound(Character) <==> id !in Ids(old(characters))
      ensures s == Ok || s == NotFound(Character) || s == Fault
      ensures s == Ok <==> id in Ids(old(characters)) && body.Some?
                           && PatchCharacter(Find(old(characters), id).value.cols, body.value).name != Null
      ensures s == Ok ==> State() == old(State()).(characters := Replace(old(characters), id, PatchCharacter(Find(old(characters), id).value.cols, body.value)))
      ensures s == Ok ==> Find(characters, id) == Some(Row(id, PatchCharacter(Find(old(characters), id).value.cols, body.value)))
      ensures s != Ok ==> State() == old(State())
    {
      var character := Find(characters, id);
      if character.None? {
        return NotFound(Character);
      }
      if body.None? {
        return Fault;
      }
      var b := body.value;
      var c := CopyCharacterFields(character.value.cols, b);
      // a null name is refused at commit
      if c.name == Null {
        return Fault;
      }
      ReplaceCharacter(id, c);
      s := Ok;
    }

    method UpdatePlanet(id: int, body: Option<Object>) returns (s: Status)
      requires Valid()
      modifies this
      ensures Valid()
      ensures s == NotFound(Planet) <==> id !in Ids(old(planets))
      ensures s == Fault <==> id in Ids(old(planets)) && body.None?
      ensures s == Ok <==> id in Ids(old(planets)) && body.Some?
      ensures s == Ok ==> State() == old(State()).(planets := Replace(old(planets), id, PatchPlanet(Find(old(planets), id).value.cols, body.value)))
      ensures s == Ok ==> Find(planets, id) == Some(Row(id, PatchPlanet(Find(old(planets), id).value.cols, body.value)))
      ensures s != Ok ==> State() == old(State())
    {
      var planet := Find(planets, id);
      if planet.None? {
        return NotFound(Planet);
      }
      if body.None? {
        return Fault;
      }
      var b := body.value;
      var c := CopyPlanetFields(planet.value.cols, b);
      ReplacePlanet(id, c);
      s := Ok;
    }

    method UpdateVehicle(id: int, body: Option<Object>) returns (s: Status)
      requires Valid()
      modifies this
      ensures Valid()
      ensures s == NotFound(Vehicle) <==> id !in Ids(old(vehicles))
      ensures s == Fault <==> id in Ids(old(vehicles)) && body.None?
      ensures s == Ok <==> id in Ids(old(vehicles)) && body.Some?
      ensures s == Ok ==> State() == old(State()).(vehicles := Replace(old(vehicles), id, PatchVehicle(Find(old(vehicles), id).value.cols, body.value)))
      ensures s == Ok ==> Find(vehicles, id) == Some(Row(id, PatchVehicle(Find(old(vehicles), id).value.cols, body.value)))
      ensures s != Ok ==> State() == old(State())
    {
      var vehicle := Find(vehicles, id);
      if vehicle.None? {
        return NotFound(Vehicle);
      }
      if body.None? {
        return Fault;
      }
      var b := body.value;
      var c := CopyVehicleFields(vehicle.value.cols, b);
      ReplaceVehicle(id, c);
      s := Ok;
    }

    // ---------------- delete routes ----------------

    /** Deleting a user cascades to its vehicle links only: the user's
        relationships to character and planet links declare no cascade. */
    method DeleteUser(id: int) returns (s: Status)
      requires Valid()
      modifies this
      ensures Valid()
      ensures s == NotFound(User) <==> id !in Ids(old(users))
      ensures s == Ok <==> id in Ids(old(users))
      ensures s == Ok ==> State() == old(State()).(users := Remove(old(users), id),
                                                   favoriteVehicles := Filter(old(favoriteVehicles), NotUser(id)))
      ensures s == Ok ==> Ids(users) == Ids(old(users)) - {id}
      ensures s == Ok ==> forall l :: l in favoriteVehicles ==> l.userId != id
      ensures s == Ok ==> forall l :: l in old(favoriteVehicles) && l.userId != id ==> l in favoriteVehicles
      ensures s != Ok ==> State() == old(State())
    {
      var user := Find(users, id);
      if user.None? {
        return NotFound(User);
      }
      DeleteUserKeeps(State(), id);
      CascadeByUser(favoriteVehicles, id);
      users := Remove(users, id);
      favoriteVehicles := Filter(favoriteVehicles, NotUser(id));
      s := Ok;
    }

    /** Deleting a character cascades to every link that names it. */
    method DeleteCharacter(id: int) returns (s: Status)
      requires Valid()
      modifies this
      ensures Valid()
      ensures s == NotFound(Character) <==> id !in Ids(old(characters))
      ensures s == Ok <==> id in Ids(old(characters))
      ensures s == Ok ==> State() == old(State()).(characters := Remove(old(characters), id),
                                                   favoriteCharacters := Filter(old(favoriteCharacters), NotTarget(id)))
      ensures s == Ok ==> Ids(characters) == Ids(old(characters)) - {id}
      ensures s == Ok ==> forall l :: l in favoriteCharacters ==> l.targetId != id
      ensures s == Ok ==> forall l :: l in old(favoriteCharacters) && l.targetId != id ==> l in favoriteCharacters
      ensures s != Ok ==> State() == old(State())
    {
      var character := Find(characters, id);
      if character.None? {
        return NotFound(Character);
      }
      DeleteCharacterKeeps(State(), id);
      CascadeByTarget(favoriteCharacters, id);
      characters := Remove(characters, id);
      favoriteCharacters := Filter(favoriteCharacters, NotTarget(id));
      s := Ok;
    }

    /** Deleting a planet cascades to every link that names it. */
    method DeletePlanet(id: int) returns (s: Status)
      requires Valid()
      modifies this
      ensures Valid()
      ensures s == NotFound(Planet) <==> id !in Ids(old(planets))
      ensures s == Ok <==> id in Ids(old(planets))
      ensures s == Ok ==> State() == old(State()).(planets := Remove(old(planets), id),
                                                   favoritePlanets := Filter(old(favoritePlanets), NotTarget(id)))
      ensures s == Ok ==> Ids(planets) == Ids(old(planets)) - {id}
      ensures s == Ok ==> forall l :: l in favoritePlanets ==> l.targetId != id
      ensures s == Ok ==> forall l :: l in old(favoritePlanets) && l.targetId != id ==> l in favoritePlanets
      ensures s != Ok ==> State() == old(State())
    {
      var planet := Find(planets, id);
      if planet.None? {
        return NotFound(Planet);
      }
      DeletePlanetKeeps(State(), id);
      CascadeByTarget(favoritePlanets, id);
      planets := Remove(planets, id);
      favoritePlanets := Filter(favoritePlanets, NotTarget(id));
      s := Ok;
    }

    /** Deleting a vehicle cascades to every link that names it. */
    method DeleteVehicle(id: int) returns (s: Status)
      requires Valid()
      modifies this
      ensures Valid()
      ensures s == NotFound(Vehicle) <==> id !in Ids(old(vehicles))
      ensures s == Ok <==> id in Ids(old(vehicles))
      ensures s == Ok ==> State() == old(State()).(vehicles := Remove(old(vehicles), id),
                                                   favoriteVehicles := Filter(old(favoriteVehicles), NotTarget(id)))
      ensures s == Ok ==> Ids(vehicles) == Ids(old(vehicles)) - {id}
      ensures s == Ok ==> forall l :: l in favoriteVehicles ==> l.targetId != id
      ensures s == Ok ==> forall l :: l in old(favoriteVehicles) && l.targetId != id ==> l in favoriteVehicles
      ensures s != Ok ==> State() == old(State())
    {
      var vehicle := Find(vehicles, id);
      if vehicle.None? {
        return NotFound(Vehicle);
      }
      DeleteVehicleKeeps(State(), id);
      CascadeByTarget(favoriteVehicles, id);
      vehicles := Remove(vehicles, id);
      favoriteVehicles := Filter(favoriteVehicles, NotTarget(id));
      s := Ok;
    }

    // ---------------- favorite routes ----------------

    method AddFavoriteCharacter(userId: int, characterId: int) returns (s: Status)
      requires Valid()
      modifies this
      ensures Valid()
      ensures s == NotFound(User) <==> userId !in Ids(old(users))
      ensures s == NotFound(Character) <==> userId in Ids(old(users)) && characterId !in Ids(old(characters))
      ensures s == AlreadyExists <==> userId in Ids(old(users)) && characterId in Ids(old(characters))
                                      && HasLink(old(favoriteCharacters), userId, characterId)
      ensures s == Ok <==> userId in Ids(old(users)) && characterId in Ids(old(characters))
                           && !HasLink(old(favoriteCharacters), userId, characterId)
      ensures s == Ok ==> State() == old(State()).(
                favoriteCharacters := old(favoriteCharacters) + [Favorite(old(nextFavoriteCharacterId), userId, characterId)],
                nextFavoriteCharacterId := old(nextFavoriteCharacterId) + 1)
      ensures s == Ok ==> LinksOf(favoriteCharacters, userId) == LinksOf(old(favoriteCharacters), userId) + [Favorite(old(nextFavoriteCharacterId), userId, characterId)]
      ensures s != Ok ==> State() == old(State())
    {
      var user := Find(users, userId);
      var character := Find(characters, characterId);
      if user.None? {
        return NotFound(User);
      }
      if character.None? {
        return NotFound(Character);
      }
      var favorites := Filter(favoriteCharacters, ByPair(userId, characterId));
      assert |favorites| > 0 <==> HasLink(favoriteCharacters, userId, characterId) by {
        MatchingNonEmpty(favoriteCharacters, userId, characterId);
      }
      if |favorites| > 0 {
        return AlreadyExists;
      }
      var link := Favorite(nextFavoriteCharacterId, userId, characterId);
      assert LinksOf(favoriteCharacters + [link], userId) == LinksOf(favoriteCharacters, userId) + [link] by {
        FilterAppend(favoriteCharacters, link, ByUser(userId));
      }
      LinkCharacter(userId, characterId);
      s := Ok;
    }

    /** As written, add_favorite_planet looks the planet id up in the
        Characters table, and names a missing one "Character". */
    method AddFavoritePlanet(userId: int, planetId: int) returns (s: Status)
      requires Valid()
      modifies this
      ensures Valid()
      ensures s == NotFound(User) <==> userId !in Ids(old(users))
      ensures s == NotFound(Character) <==> userId in Ids(old(users)) && planetId !in Ids(old(characters))
      ensures s == AlreadyExists <==> userId in Ids(old(users)) && planetId in Ids(old(characters))
                                      && HasLink(old(favoritePlanets), userId, planetId)
      ensures s == Ok <==> userId in Ids(old(users)) && planetId in Ids(old(characters))
                           && !HasLink(old(favoritePlanets), userId, planetId)
      ensures s == Ok ==> State() == old(State()).(
                favoritePlanets := old(favoritePlanets) + [Favorite(old(nextFavoritePlanetId), userId, planetId)],
                nextFavoritePlanetId := old(nextFavoritePlanetId) + 1)
      ensures s == Ok ==> LinksOf(favoritePlanets, userId) == LinksOf(old(favoritePlanets), userId) + [Favorite(old(nextFavoritePlanetId), userId, planetId)]
      ensures s != Ok ==> State() == old(State())
    {
      var user := Find(users, userId);
      var planet := Find(characters, planetId);
      if user.None? {
        return NotFound(User);
      }
      if planet.None? {
        return NotFound(Character);
      }
      var favorites := Filter(favoritePlanets, ByPair(userId, planetId));
      assert |favorites| > 0 <==> HasLink(favoritePlanets, userId, planetId) by {
        MatchingNonEmpty(favoritePlanets, userId, planetId);
      }
      if |favorites| > 0 {
        return AlreadyExists;
      }
      var link := Favorite(nextFavoritePlanetId, userId, planetId);
      assert LinksOf(favoritePlanets + [link], userId) == LinksOf(favoritePlanets, userId) + [link] by {
        FilterAppend(favoritePlanets, link, ByUser(userId));
      }
      LinkPlanet(userId, planetId);
      s := Ok;
    }

    /** As written, add_favorite_vehicle looks the vehicle id up in the
        Characters table (its reply still names "Vehicle"). */
    method AddFavoriteVehicle(userId: int, vehicleId: int) returns (s: Status)
      requires Valid()
      modifies this
      ensures Valid()
      ensures s == NotFound(User) <==> userId !in Ids(old(users))
      ensures s == NotFound(Vehicle) <==> userId in Ids(old(users)) && vehicleId !in Ids(old(characters))
      ensures s == AlreadyExists <==> userId in Ids(old(users)) && vehicleId in Ids(old(characters))
                                      && HasLink(old(favoriteVehicles), userId, vehicleId)
      ensures s == Ok <==> userId in Ids(old(users)) && vehicleId in Ids(old(characters))
                           && !HasLink(old(favoriteVehicles), userId, vehicleId)
      ensures s == Ok ==> State() == old(State()).(
                favoriteVehicles := old(favoriteVehicles) + [Favorite(old(nextFavoriteVehicleId), userId, vehicleId)],
                nextFavoriteVehicleId := old(nextFavoriteVehicleId) + 1)
      ensures s == Ok ==> LinksOf(favoriteVehicles, userId) == LinksOf(old(favoriteVehicles), userId) + [Favorite(old(nextFavoriteVehicleId), userId, vehicleId)]
      ensures s != Ok ==> State() == old(State())
    {
      var user := Find(users, userId);
      var vehicle := Find(characters, vehicleId);
      if user.None? {
        return NotFound(User);
      }
      if vehicle.None? {
        return NotFound(Vehicle);
      }
      var favorites := Filter(favoriteVehicles, ByPair(userId, vehicleId));
      assert |favorites| > 0 <==> HasLink(favoriteVehicles, userId, vehicleId) by {
        MatchingNonEmpty(favoriteVehicles, userId, vehicleId);
      }
      if |favorites| > 0 {
        return AlreadyExists;
      }
      var link := Favorite(nextFavoriteVehicleId, userId, vehicleId);
      assert LinksOf(favoriteVehicles + [link], userId) == LinksOf(favoriteVehicles, userId) + [link] by {
        FilterAppend(favoriteVehicles, link, ByUser(userId));
      }
      LinkVehicle(userId, vehicleId);
      s := Ok;
    }

    method DeleteFavoriteCharacter(userId: int, characterId: int) returns (s: Status)
      requires Valid()
      modifies this
      ensures Valid()
      ensures s == NotFound(User) <==> userId !in Ids(old(users))
      ensures s == NotFound(Character) <==> userId in Ids(old(users)) && characterId !in Ids(old(characters))
      ensures s == DoesNotExist <==> userId in Ids(old(users)) && characterId in Ids(old(characters))
                                     && !HasLink(old(favoriteCharacters), userId, characterId)
      ensures s == Ok <==> userId in Ids(old(users)) && characterId in Ids(old(characters))
                           && HasLink(old(favoriteCharacters), userId, characterId)
      ensures s == Ok ==> State() == old(State()).(
                favoriteCharacters := RemoveFirst(old(favoriteCharacters), userId, characterId))
      ensures s == Ok ==> !HasLink(favoriteCharacters, userId, characterId)
      ensures s != Ok ==> State() == old(State())
    {
      var user := Find(users, userId);
      var character := Find(characters, characterId);
      if user.None? {
        return NotFound(User);
      }
      if character.None? {
        return NotFound(Character);
      }
      var favorites := Filter(favoriteCharacters, ByPair(userId, characterId));
      assert |favorites| > 0 <==> HasLink(favoriteCharacters, userId, characterId) by {
        MatchingNonEmpty(favoriteCharacters, userId, characterId);
      }
      if |favorites| == 0 {
        return DoesNotExist;
      }
      UnlinkCharacter(userId, characterId, favorites[0]);
      s := Ok;
    }

    method DeleteFavoritePlanet(userId: int, planetId: int) returns (s: Status)
      requires Valid()
      modifies this
      ensures Valid()
      ensures s == NotFound(User) <==> userId !in Ids(old(users))
      ensures s == NotFound(Planet) <==> userId in Ids(old(users)) && planetId !in Ids(old(planets))
      ensures s == DoesNotExist <==> userId in Ids(old(users)) && planetId in Ids(old(planets))
                                     && !HasLink(old(favoritePlanets), userId, planetId)
      ensures s == Ok <==> userId in Ids(old(users)) && planetId in Ids(old(planets))
                           && HasLink(old(favoritePlanets), userId, planetId)
      ensures s == Ok ==> State() == old(State()).(
                favoritePlanets := RemoveFirst(old(favoritePlanets), userId, planetId))
      ensures s == Ok ==> !HasLink(favoritePlanets, userId, planetId)
      ensures s != Ok ==> State() == old(State())
    {
      var user := Find(users, userId);
      var planet := Find(planets, planetId);
      if user.None? {
        return NotFound(User);
      }
      if planet.None? {
        return NotFound(Planet);
      }
      var favorites := Filter(favoritePlanets, ByPair(userId, planetId));
      assert |favorites| > 0 <==> HasLink(favoritePlanets, userId, planetId) by {
        MatchingNonEmpty(favoritePlanets, userId, planetId);
      }
      if |favorites| == 0 {
        return DoesNotExist;
      }
      UnlinkPlanet(userId, planetId, favorites[0]);
      s := Ok;
    }

    method DeleteFavoriteVehicle(userId: int, vehicleId: int) returns (s: Status)
      requires Valid()
      modifies this
      ensures Valid()
      ensures s == NotFound(User) <==> userId !in Ids(old(users))
      ensures s == NotFound(Vehicle) <==> userId in Ids(old(users)) && vehicleId !in Ids(old(vehicles))
      ensures s == DoesNotExist <==> userId in Ids(old(users)) && vehicleId in Ids(old(vehicles))
                                     && !HasLink(old(favoriteVehicles), userId, vehicleId)
      ensures s == Ok <==> userId in Ids(old(users)) && vehicleId in Ids(old(vehicles))
                           && HasLink(old(favoriteVehicles), userId, vehicleId)
      ensures s == Ok ==> State() == old(State()).(
                favoriteVehicles := RemoveFirst(old(favoriteVehicles), userId, vehicleId))
      ensures s == Ok ==> !HasLink(favoriteVehicles, userId, vehicleId)
      ensures s != Ok ==> State() == old(State())
    {
      var user := Find(users, userId);
      var vehicle := Find(vehicles, vehicleId);
      if user.None? {
        return NotFound(User);
      }
      if vehicle.None? {
        return NotFound(Vehicle);
      }
      var favorites := Filter(favoriteVehicles, ByPair(userId, vehicleId));
      assert |favorites| > 0 <==> HasLink(favoriteVehicles, userId, vehicleId) by {
        MatchingNonEmpty(favoriteVehicles, userId, vehicleId);
      }
      if |favorites| == 0 {
        return DoesNotExist;
      }
      UnlinkVehicle(userId, vehicleId, favorites[0]);
      s := Ok;
    }

    // ---------------- get_favorites ----------------

    /** The user's links of each kind, in link order, each resolved to its
        target's serialised form. A character link always resolves; a planet
        or vehicle link may name a row that does not exist, and the route then
        fails. */
    method GetFavorites(userId: int) returns (s: Status, view: FavoritesView)
      requires Valid()
      ensures s == NotFound(User) <==> userId !in Ids(users)
      ensures s == Ok || s == NotFound(User) || s == Fault
      ensures s == Fault <==> userId in Ids(users)
                              && !(AllResolve(planets, LinksOf(favoritePlanets, userId))
                                   && AllResolve(vehicles, LinksOf(favoriteVehicles, userId)))
      ensures s == Ok ==> ResolvesTo(characters, LinksOf(favoriteCharacters, userId), SerializeCharacter, view.characters)
      ensures s == Ok ==> ResolvesTo(planets, LinksOf(favoritePlanets, userId), SerializePlanet, view.planets)
      ensures s == Ok ==> ResolvesTo(vehicles, LinksOf(favoriteVehicles, userId), SerializeVehicle, view.vehicles)
    {
      view := FavoritesView([], [], []);
      var user := Find(users, userId);
      if user.None? {
        return NotFound(User), view;
      }
      var mine := LinksOf(favoriteCharacters, userId);
      assert AllResolve(characters, mine) by {
        forall i | 0 <= i < |mine| ensures mine[i].targetId in Ids(characters) {
          assert mine[i] in mine;
        }
      }
      var chars := Resolve(characters, mine, SerializeCharacter);
      var ps := Resolve(planets, LinksOf(favoritePlanets, userId), SerializePlanet);
      if ps.None? {
        return Fault, view;
      }
      var vs := Resolve(vehicles, LinksOf(favoriteVehicles, userId), SerializeVehicle);
      if vs.None? {
        return Fault, view;
      }
      view := FavoritesView(chars.value, ps.value, vs.value);
      s := Ok;
    }
  }

  // ---------------- scenarios ----------------

  const FirstUserBody: Object := map["email" := Str("a@x.com"), "username" := Str("u1"), "first_name" := Str("A"),
                                     "last_name" := Str("B"), "password" := Str("p")]
  const Luke: Object := map["name" := Str("Luke"), "height" := Int(172), "weight" := Int(77)]

  /** A fresh store holding one user, with id 1. */
  method UserStore() returns (store: Store)
    ensures fresh(store) && store.Valid()
    ensures store.State() == Db([Row(1, NewUser(FirstUserBody))], [], [], [], [], [], [], 2, 1, 1, 1, 1, 1, 1)
  {
    store := new Store();
    assert HasAll(FirstUserBody, UserRequired) by {
      assert forall i :: 0 <= i < |UserRequired| ==> UserRequired[i] in FirstUserBody;
    }
    assert FirstMissing(FirstUserBody, UserRequired).None?;
    assert UsersConsistent(store.users + [Row(1, NewUser(FirstUserBody))]) by {
      assert NewUser(FirstUserBody) == UserCols(Str("a@x.com"), Str("p"), Str("u1"), Str("A"), Str("B"));
      assert store.users + [Row(1, NewUser(FirstUserBody))] == [Row(1, NewUser(FirstUserBody))];
    }
    var s, user := store.AddUser(Some(FirstUserBody));
    assert s == Ok;
  }

  /** A fresh store holding one user and one character, Luke, both with id 1. */
  method LukeStore() returns (store: Store)
    ensures fresh(store) && store.Valid()
    ensures store.State() == Db([Row(1, NewUser(FirstUserBody))], [Row(1, NewCharacter(Luke))], [], [], [], [], [],
                                2, 2, 1, 1, 1, 1, 1)
  {
    store := UserStore();
    assert HasAll(Luke, CharacterRequired) by {
      assert forall i :: 0 <= i < |CharacterRequired| ==> CharacterRequired[i] in Luke;
    }
    assert FirstMissing(Luke, CharacterRequired).None?;
    var s, character := store.AddCharacter(Some(Luke));
    assert s == Ok;
  }

  /** A user favorites Luke twice, then Luke is deleted: the second add is
      refused, the listing holds Luke once, and after the deletion the
      character list is empty without any failure. */
  method LukeScenario() returns (first: Status, second: Status, listed: Status, before: FavoritesView,
                                 relisted: Status, after: FavoritesView)
    ensures first == Ok && second == AlreadyExists
    ensures listed == Ok && |before.characters| == 1
    ensures before.characters[0] == SerializeCharacter(Row(1, NewCharacter(Luke)))
    ensures relisted == Ok && after.characters == []
  {
    var store := LukeStore();
    assert 1 in Ids(store.users) && 1 in Ids(store.characters) by {
      assert store.users[0] in store.users && store.characters[0] in store.characters;
    }
    first := store.AddFavoriteCharacter(1, 1);
    assert store.favoriteCharacters == [Favorite(1, 1, 1)];
    second := store.AddFavoriteCharacter(1, 1);
    assert LinksOf(store.favoriteCharacters, 1) == [Favorite(1, 1, 1)];
    listed, before := store.GetFavorites(1);
    var s := store.DeleteCharacter(1);
    assert store.favoriteCharacters == [];
    relisted, after := store.GetFavorites(1);
  }

  /** add_favorite_planet accepts any character id as a planet id, so a user
      can favorite a planet that does not exist, and listing that user's
      favorites then fails. */
  method DanglingPlanetScenario() returns (added: Status, listed: Status)
    ensures added == Ok && listed == Fault
  {
    var store := LukeStore();
    assert 1 in Ids(store.users) && 1 in Ids(store.characters) by {
      assert store.users[0] in store.users && store.characters[0] in store.characters;
    }
    added := store.AddFavoritePlanet(1, 1);
    assert LinksOf(store.favoritePlanets, 1) == [Favorite(1, 1, 1)];
    var view;
    listed, view := store.GetFavorites(1);
  }
}
