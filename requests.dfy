/** How the create and update routes turn a request body into columns: which
    keys are required, which defaults fill the optional ones, and the partial
    copy of the update routes. */
module Requests {
  import opened Json
  import opened Tables
  import opened Models

  /** The keys each create route demands, in the order it checks them. */
  const UserRequired: seq<string> := ["email", "password", "username", "first_name", "last_name"]
  const CharacterRequired: seq<string> := ["name", "height", "weight"]
  const PlanetRequired: seq<string> := ["planet_name"]
  const VehicleRequired: seq<string> := ["vehicle_name"]

  /** The body keys each update route copies. */
  const UserColumns: set<string> := {"email", "password", "username", "first_name", "last_name"}
  const CharacterColumns: set<string> := {"name", "gender", "height", "weight", "birthdate"}
  const PlanetColumns: set<string> :=
    {"planet_name", "climate", "terrain", "day_length_hours", "year_length_days", "population"}
  const VehicleColumns: set<string> :=
    {"vehicle_name", "cargo_capacity", "number_passengers", "number_crew", "model", "cost"}

  predicate HasAll(body: Object, required: seq<string>) {
    forall i :: 0 <= i < |required| ==> required[i] in body
  }

  // ---- update_*: copy only the keys the body carries ----

  function PatchUser(c: UserCols, body: Object): (r: UserCols)
    ensures body.Keys !! UserColumns ==> r == c
    ensures r.password == (if "password" in body then body["password"] else c.password)
  {
    UserCols(Pick(body, "email", c.email), Pick(body, "password", c.password),
             Pick(body, "username", c.username), Pick(body, "first_name", c.firstName),
             Pick(body, "last_name", c.lastName))
  }

  function PatchCharacter(c: CharacterCols, body: Object): (r: CharacterCols)
    ensures body.Keys !! CharacterColumns ==> r == c
  {
    CharacterCols(Pick(body, "name", c.name), Pick(body, "gender", c.gender),
                  Pick(body, "height", c.height), Pick(body, "weight", c.weight),
                  Pick(body, "birthdate", c.birthdate))
  }

  function PatchPlanet(c: PlanetCols, body: Object): (r: PlanetCols)
    ensures body.Keys !! PlanetColumns ==> r == c
  {
    PlanetCols(Pick(body, "planet_name", c.planetName), Pick(body, "climate", c.climate),
               Pick(body, "terrain", c.terrain), Pick(body, "day_length_hours", c.dayLengthHours),
               Pick(body, "year_length_days", c.yearLengthDays), Pick(body, "population", c.population))
  }

  function PatchVehicle(c: VehicleCols, body: Object): (r: VehicleCols)
    ensures body.Keys !! VehicleColumns ==> r == c
  {
    VehicleCols(Pick(body, "vehicle_name", c.vehicleName), Pick(body, "cargo_capacity", c.cargoCapacity),
                Pick(body, "number_passengers", c.numberPassengers), Pick(body, "number_crew", c.numberCrew),
                Pick(body, "model", c.model), Pick(body, "cost", c.cost))
  }

  /** The body's entries for the given columns, and nothing else. */
  function Restrict(body: Object, keys: set<string>): (r: Object)
    ensures r.Keys == body.Keys * keys
    ensures forall k :: k in r ==> r[k] == body[k]
  {
    map k | k in body && k in keys :: body[k]
  }

  /** An update is a dictionary override: the record's serialised form after
      the update is its form before, overwritten by the body's entries for the
      record's columns (the password, never serialised, aside). */
  lemma PatchUserOverrides(row: UserRow, body: Object)
    ensures SerializeUser(Row(row.id, PatchUser(row.cols, body)))
            == SerializeUser(row) + Restrict(body, UserColumns - {"password"})
  {
    var after := SerializeUser(Row(row.id, PatchUser(row.cols, body)));
    var r := Restrict(body, UserColumns - {"password"});
    var before := SerializeUser(row) + r;
    assert after.Keys == before.Keys;
    forall k | k in after ensures after[k] == before[k] {
      if k in r {
        assert k in UserColumns - {"password"};
      }
    }
  }

  lemma PatchCharacterOverrides(row: CharacterRow, body: Object)
    ensures SerializeCharacter(Row(row.id, PatchCharacter(row.cols, body)))
            == SerializeCharacter(row) + Restrict(body, CharacterColumns)
  {
    var after := SerializeCharacter(Row(row.id, PatchCharacter(row.cols, body)));
    var r := Restrict(body, CharacterColumns);
    var before := SerializeCharacter(row) + r;
    assert after.Keys == before.Keys;
    forall k | k in after ensures after[k] == before[k] {
      if k in r {
        assert k in CharacterColumns;
      }
    }
  }

  lemma PatchPlanetOverrides(row: PlanetRow, body: Object)
    ensures SerializePlanet(Row(row.id, PatchPlanet(row.cols, body)))
            == SerializePlanet(row) + Restrict(body, PlanetColumns)
  {
    var after := SerializePlanet(Row(row.id, PatchPlanet(row.cols, body)));
    var r := Restrict(body, PlanetColumns);
    var before := SerializePlanet(row) + r;
    assert after.Keys == before.Keys;
    forall k | k in after ensures after[k] == before[k] {
      if k in r {
        assert k in PlanetColumns;
      }
    }
  }

  lemma PatchVehicleOverrides(row: VehicleRow, body: Object)
    ensures SerializeVehicle(Row(row.id, PatchVehicle(row.cols, body)))
            == SerializeVehicle(row) + Restrict(body, VehicleColumns)
  {
    var after := SerializeVehicle(Row(row.id, PatchVehicle(row.cols, body)));
    var r := Restrict(body, VehicleColumns);
    var before := SerializeVehicle(row) + r;
    assert after.Keys == before.Keys;
    forall k | k in after ensures after[k] == before[k] {
      if k in r {
        assert k in VehicleColumns;
      }
    }
  }

  /** Applying the same body twice changes nothing more than applying it once. */
  lemma PatchUserIdempotent(u: UserCols, body: Object)
    ensures PatchUser(PatchUser(u, body), body) == PatchUser(u, body)
  {
  }

  lemma PatchCharacterIdempotent(c: CharacterCols, body: Object)
    ensures PatchCharacter(PatchCharacter(c, body), body) == PatchCharacter(c, body)
  {
  }

  lemma PatchPlanetIdempotent(p: PlanetCols, body: Object)
    ensures PatchPlanet(PatchPlanet(p, body), body) == PatchPlanet(p, body)
  {
  }

  lemma PatchVehicleIdempotent(v: VehicleCols, body: Object)
    ensures PatchVehicle(PatchVehicle(v, body), body) == PatchVehicle(v, body)
  {
  }

  // ---- add_*: required keys, then defaults for the rest ----

  /** The record the defaults describe; required columns hold `Null` as a
      placeholder, since a body without them is refused. */
  const CharacterDefaults := CharacterCols(Null, Str("N/A"), Null, Null, Str("N/A"))
  const PlanetDefaults := PlanetCols(Null, Str("N/A"), Str("N/A"), Int(0), Int(0), Int(0))
  const VehicleDefaults := VehicleCols(Null, Int(0), Int(0), Int(1), Str("N/A"), Int(0))

  /** Every column of a new user comes from the body. */
  function NewUser(body: Object): (c: UserCols)
    requires HasAll(body, UserRequired)
    ensures forall prior :: PatchUser(prior, body) == c
  {
    assert UserRequired[0] in body && UserRequired[1] in body && UserRequired[2] in body
           && UserRequired[3] in body && UserRequired[4] in body;
    UserCols(body["email"], body["password"], body["username"], body["first_name"], body["last_name"])
  }

  /** A new character is the defaults record updated with the body. */
  function NewCharacter(body: Object): (c: CharacterCols)
    requires HasAll(body, CharacterRequired)
    ensures c == PatchCharacter(CharacterDefaults, body)
  {
    assert CharacterRequired[0] in body && CharacterRequired[1] in body && CharacterRequired[2] in body;
    CharacterCols(body["name"], Pick(body, "gender", Str("N/A")), body["height"], body["weight"],
                  Pick(body, "birthdate", Str("N/A")))
  }

  /** A new planet is the defaults record updated with the body. */
  function NewPlanet(body: Object): (c: PlanetCols)
    requires HasAll(body, PlanetRequired)
    ensures c == PatchPlanet(PlanetDefaults, body)
  {
    assert PlanetRequired[0] in body;
    PlanetCols(body["planet_name"], Pick(body, "climate", Str("N/A")), Pick(body, "terrain", Str("N/A")),
               Pick(body, "day_length_hours", Int(0)), Pick(body, "year_length_days", Int(0)),
               Pick(body, "population", Int(0)))
  }

  /** A new vehicle is the defaults record updated with the body. */
  function NewVehicle(body: Object): (c: VehicleCols)
    requires HasAll(body, VehicleRequired)
    ensures c == PatchVehicle(VehicleDefaults, body)
  {
    assert VehicleRequired[0] in body;
    VehicleCols(body["vehicle_name"], Pick(body, "cargo_capacity", Int(0)),
                Pick(body, "number_passengers", Int(0)), Pick(body, "number_crew", Int(1)),
                Pick(body, "model", Str("N/A")), Pick(body, "cost", Int(0)))
  }

  /** A created record, serialised, is the defaults overridden by the body:
      every optional key the body omits takes its default. */
  lemma NewRecordsOverrideDefaults(id: int, body: Object)
    ensures HasAll(body, CharacterRequired) ==>
              SerializeCharacter(Row(id, NewCharacter(body)))
              == SerializeCharacter(Row(id, CharacterDefaults)) + Restrict(body, CharacterColumns)
    ensures HasAll(body, PlanetRequired) ==>
              SerializePlanet(Row(id, NewPlanet(body)))
              == SerializePlanet(Row(id, PlanetDefaults)) + Restrict(body, PlanetColumns)
    ensures HasAll(body, VehicleRequired) ==>
              SerializeVehicle(Row(id, NewVehicle(body)))
              == SerializeVehicle(Row(id, VehicleDefaults)) + Restrict(body, VehicleColumns)
  {
    PatchCharacterOverrides(Row(id, CharacterDefaults), body);
    PatchPlanetOverrides(Row(id, PlanetDefaults), body);
    PatchVehicleOverrides(Row(id, VehicleDefaults), body);
  }
}
