/** The schema: the four entity tables, the three favorite-link tables, their
    declared constraints, and every `serialize()` method. */
module Models {
  import opened Json
  import opened Tables

  /** The entity kinds; a not-found reply names one of them. */
  datatype Kind = User | Character | Planet | Vehicle

  /** The primary-key column of each entity table, as its `serialize()` spells it. */
  function IdKey(k: Kind): string {
    match k
    case User => "user_id"
    case Character => "character_id"
    case Planet => "planet_id"
    case Vehicle => "vehicle_id"
  }

  // Every column holds whatever JSON value the request carried: the routes
  // copy values without converting them.

  datatype UserCols = UserCols(email: Value, password: Value, username: Value,
                               firstName: Value, lastName: Value)

  datatype CharacterCols = CharacterCols(name: Value, gender: Value, height: Value,
                                         weight: Value, birthdate: Value)

  datatype PlanetCols = PlanetCols(planetName: Value, climate: Value, terrain: Value,
                                   dayLengthHours: Value, yearLengthDays: Value,
                                   population: Value)

  datatype VehicleCols = VehicleCols(vehicleName: Value, cargoCapacity: Value,
                                     numberPassengers: Value, numberCrew: Value,
                                     model: Value, cost: Value)

  type UserRow = Row<UserCols>
  type CharacterRow = Row<CharacterCols>
  type PlanetRow = Row<PlanetCols>
  type VehicleRow = Row<VehicleCols>

  /** A row of FavoriteCharacters, FavoritePlanets or FavoriteVehicles: its own
      id, the user's id and the target's id. */
  datatype Favorite = Favorite(id: int, userId: int, targetId: int)

  // ---- serialize() ----

  const UserKeys: set<string> := {"user_id", "email", "username", "first_name", "last_name"}

  function SerializeUser(u: UserRow): (o: Object)
    ensures o.Keys == UserKeys
    ensures "password" !in o
  {
    map["user_id" := Int(u.id), "email" := u.cols.email, "username" := u.cols.username,
        "first_name" := u.cols.firstName, "last_name" := u.cols.lastName]
  }

  /** The serialised user determines the user up to the password, and reveals
      nothing of it: two users serialise alike exactly when they agree on
      everything but the password. */
  lemma SerializeUserHidesOnlyPassword(a: UserRow, b: UserRow)
    ensures SerializeUser(a) == SerializeUser(b) <==> a.id == b.id && a.cols.(password := b.cols.password) == b.cols
  {
    if SerializeUser(a) == SerializeUser(b) {
      assert SerializeUser(a)["user_id"] == SerializeUser(b)["user_id"];
      assert SerializeUser(a)["email"] == SerializeUser(b)["email"];
      assert SerializeUser(a)["username"] == SerializeUser(b)["username"];
      assert SerializeUser(a)["first_name"] == SerializeUser(b)["first_name"];
      assert SerializeUser(a)["last_name"] == SerializeUser(b)["last_name"];
    }
  }

  const CharacterKeys: set<string> := {"character_id", "name", "gender", "height", "weight", "birthdate"}

  function SerializeCharacter(c: CharacterRow): (o: Object)
    ensures o.Keys == CharacterKeys
  {
    map["character_id" := Int(c.id), "name" := c.cols.name, "gender" := c.cols.gender,
        "height" := c.cols.height, "weight" := c.cols.weight, "birthdate" := c.cols.birthdate]
  }

  /** Nothing of a character is lost in its serialised form. */
  lemma SerializeCharacterInjective(a: CharacterRow, b: CharacterRow)
    ensures SerializeCharacter(a) == SerializeCharacter(b) <==> a == b
  {
    if SerializeCharacter(a) == SerializeCharacter(b) {
      assert SerializeCharacter(a)["character_id"] == SerializeCharacter(b)["character_id"];
      assert SerializeCharacter(a)["name"] == SerializeCharacter(b)["name"];
      assert SerializeCharacter(a)["gender"] == SerializeCharacter(b)["gender"];
      assert SerializeCharacter(a)["height"] == SerializeCharacter(b)["height"];
      assert SerializeCharacter(a)["weight"] == SerializeCharacter(b)["weight"];
      assert SerializeCharacter(a)["birthdate"] == SerializeCharacter(b)["birthdate"];
    }
  }

  const PlanetKeys: set<string> :=
    {"planet_id", "planet_name", "climate", "terrain", "day_length_hours", "year_length_days", "population"}

  function SerializePlanet(p: PlanetRow): (o: Object)
    ensures o.Keys == PlanetKeys
  {
    map["planet_id" := Int(p.id), "planet_name" := p.cols.planetName, "climate" := p.cols.climate,
        "terrain" := p.cols.terrain, "day_length_hours" := p.cols.dayLengthHours,
        "year_length_days" := p.cols.yearLengthDays, "population" := p.cols.population]
  }

  /** Nothing of a planet is lost in its serialised form. */
  lemma SerializePlanetInjective(a: PlanetRow, b: PlanetRow)
    ensures SerializePlanet(a) == SerializePlanet(b) <==> a == b
  {
    if SerializePlanet(a) == SerializePlanet(b) {
      assert SerializePlanet(a)["planet_id"] == SerializePlanet(b)["planet_id"];
      assert SerializePlanet(a)["planet_name"] == SerializePlanet(b)["planet_name"];
      assert SerializePlanet(a)["climate"] == SerializePlanet(b)["climate"];
      assert SerializePlanet(a)["terrain"] == SerializePlanet(b)["terrain"];
      assert SerializePlanet(a)["day_length_hours"] == SerializePlanet(b)["day_length_hours"];
      assert SerializePlanet(a)["year_length_days"] == SerializePlanet(b)["year_length_days"];
      assert SerializePlanet(a)["population"] == SerializePlanet(b)["population"];
    }
  }

  const VehicleKeys: set<string> :=
    {"vehicle_id", "vehicle_name", "cargo_capacity", "number_passengers", "number_crew", "model", "cost"}

  function SerializeVehicle(v: VehicleRow): (o: Object)
    ensures o.Keys == VehicleKeys
  {
    map["vehicle_id" := Int(v.id), "vehicle_name" := v.cols.vehicleName,
        "cargo_capacity" := v.cols.cargoCapacity, "number_passengers" := v.cols.numberPassengers,
        "number_crew" := v.cols.numberCrew, "model" := v.cols.model, "cost" := v.cols.cost]
  }

  /** Nothing of a vehicle is lost in its serialised form. */
  lemma SerializeVehicleInjective(a: VehicleRow, b: VehicleRow)
    ensures SerializeVehicle(a) == SerializeVehicle(b) <==> a == b
  {
    if SerializeVehicle(a) == SerializeVehicle(b) {
      assert SerializeVehicle(a)["vehicle_id"] == SerializeVehicle(b)["vehicle_id"];
      assert SerializeVehicle(a)["vehicle_name"] == SerializeVehicle(b)["vehicle_name"];
      assert SerializeVehicle(a)["cargo_capacity"] == SerializeVehicle(b)["cargo_capacity"];
      assert SerializeVehicle(a)["number_passengers"] == SerializeVehicle(b)["number_passengers"];
      assert SerializeVehicle(a)["number_crew"] == SerializeVehicle(b)["number_crew"];
      assert SerializeVehicle(a)["model"] == SerializeVehicle(b)["model"];
      assert SerializeVehicle(a)["cost"] == SerializeVehicle(b)["cost"];
    }
  }

  /** The `serialize()` of a favorite link of the given target kind. */
  function SerializeFavorite(f: Favorite, target: Kind): (o: Object)
    requires target != User
    ensures o.Keys == {"id", IdKey(User), IdKey(target)}
    ensures |o.Keys| == 3
  {
    map["id" := Int(f.id), IdKey(User) := Int(f.userId), IdKey(target) := Int(f.targetId)]
  }

  /** A favorite link loses nothing in its serialised form either. */
  lemma SerializeFavoriteInjective(a: Favorite, b: Favorite, target: Kind)
    requires target != User
    ensures SerializeFavorite(a, target) == SerializeFavorite(b, target) <==> a == b
  {
    if SerializeFavorite(a, target) == SerializeFavorite(b, target) {
      assert SerializeFavorite(a, target)["id"] == SerializeFavorite(b, target)["id"];
      assert SerializeFavorite(a, target)[IdKey(User)] == SerializeFavorite(b, target)[IdKey(User)];
      assert SerializeFavorite(a, target)[IdKey(target)] == SerializeFavorite(b, target)[IdKey(target)];
    }
  }

  // ---- declared column constraints, enforced by the database at commit ----

  /** The columns of `user` declared `nullable=False`. */
  predicate UserNonNull(c: UserCols) {
    c.email != Null && c.password != Null && c.username != Null
    && c.firstName != Null && c.lastName != Null
  }

  /** The `user` table's constraints: its non-null columns, and `unique=True`
      on email and username. */
  predicate UsersConsistent(users: Table<UserCols>) {
    && (forall i :: 0 <= i < |users| ==> UserNonNull(users[i].cols))
    && (forall i, j :: 0 <= i < j < |users| ==>
          users[i].cols.email != users[j].cols.email && users[i].cols.username != users[j].cols.username)
  }

  /** The `characters` table's one explicit constraint: `name` is `nullable=False`. */
  predicate CharactersConsistent(characters: Table<CharacterCols>) {
    forall i :: 0 <= i < |characters| ==> characters[i].cols.name != Null
  }

  /** Deleting a user keeps the user table's constraints. */
  lemma RemoveKeepsUsersConsistent(users: Table<UserCols>, id: int)
    requires UsersConsistent(users) && KeysUnique(users)
    ensures UsersConsistent(Remove(users, id))
  {
    var r := Remove(users, id);
    forall i, j | 0 <= i < j < |r|
      ensures r[i].cols.email != r[j].cols.email && r[i].cols.username != r[j].cols.username
    {
      var a :| 0 <= a < |users| && users[a] == r[i];
      var b :| 0 <= b < |users| && users[b] == r[j];
      assert r[i].id != r[j].id;
      assert a != b;
      if a < b { assert users[a].cols.email != users[b].cols.email; }
      else { assert users[b].cols.email != users[a].cols.email; }
    }
    forall i | 0 <= i < |r| ensures UserNonNull(r[i].cols) {
      var a :| 0 <= a < |users| && users[a] == r[i];
    }
  }

  /** Deleting a character keeps the character table's constraint. */
  lemma RemoveKeepsCharactersConsistent(characters: Table<CharacterCols>, id: int)
    requires CharactersConsistent(characters)
    ensures CharactersConsistent(Remove(characters, id))
  {
    var r := Remove(characters, id);
    forall i | 0 <= i < |r| ensures r[i].cols.name != Null {
      var a :| 0 <= a < |characters| && characters[a] == r[i];
    }
  }

  /** The commit check of `add_user`: appending a row keeps the `user` table's
      constraints exactly when the row has no null column and reuses no
      stored email or username. */
  lemma AppendUserConsistent(users: Table<UserCols>, row: UserRow)
    requires UsersConsistent(users)
    ensures UsersConsistent(users + [row]) <==>
              UserNonNull(row.cols)
              && forall u :: u in users ==> u.cols.email != row.cols.email && u.cols.username != row.cols.username
  {
    var s := users + [row];
    if UsersConsistent(s) {
      assert s[|users|] == row;
      forall u | u in users ensures u.cols.email != row.cols.email && u.cols.username != row.cols.username {
        var k :| 0 <= k < |users| && users[k] == u;
        assert s[k] == u;
      }
    }
    if UserNonNull(row.cols) && forall u :: u in users ==> u.cols.email != row.cols.email && u.cols.username != row.cols.username {
      forall i, j | 0 <= i < j < |s|
        ensures s[i].cols.email != s[j].cols.email && s[i].cols.username != s[j].cols.username
      {
        if j == |users| { assert s[i] in users; }
      }
    }
  }
}
