# Star Wars catalog store, modelled in Dafny

The system is a small Flask/SQLAlchemy backend. It catalogues four kinds of entity: users, characters ("people"), planets and vehicles. It also keeps three favorite-link tables, which record that a user favorites a character, a planet or a vehicle.

Every HTTP route performs one short transaction on these tables. Some only look a row up or list a table. The others do one of the following:
- check the required keys of a JSON body, fill defaults and insert a row;
- copy the keys a body carries into an existing row;
- delete a row, cascading to the links as the schema declares;
- add or remove a favorite link after checking both endpoints and the (user, target) pair;
- gather a user's favorites, serialised, in link order.

This project models that store and its routes and proves what they promise.

## Structure

- `json.dfy` (module `Json`): request bodies and serialised rows as maps from keys to JSON values (`Null`, `Int`, `Str`). It also holds a key lookup with a fallback, and the first missing required key.
- `tables.dfy` (module `Tables`): a table is a sequence of rows in primary-key (scan) order, each with its integer primary key. Ids only grow, so this is also insertion order. It provides:
  - primary-key lookup (`query.get`), delete and in-place column update, with their lemmas;
  - the serialising loop of the list routes.
- `models.dfy` (module `Models`, for `src/models.py`): the column records of the four entities and the link record, every `serialize()` method, and the column constraints the database enforces at commit (`unique=True`, `nullable=False`).
- `links.dfy` (module `Links`): a `filter_by(...)` query over a link table, the first-match removal that `delete_favorite_*` performs, and the loop that resolves a user's links to their serialised targets.
- `requests.dfy` (module `Requests`): each create route's required keys and defaults, and each update route's partial copy.
- `store.dfy` (module `Catalog`, for `src/app.py`): the class `Store`, which holds the seven tables and their id sequences, with one method per route.
  - The ghost function `State()` takes a snapshot of all fields. Every route states its whole new state against `old(State())`.
  - `Valid()` is the invariant every route keeps. It covers unique primary keys, fresh next ids, the user and character column constraints, unique link ids and (user, target) pairs, and two link facts: character links name existing characters, and vehicle links name existing users.
  - Every create and update route, and every route that adds or removes a favorite, ends in a commit method: `InsertX`, `ReplaceX`, `LinkX` or `UnlinkX`. The commit method writes the route's change and keeps `Valid()` through a lemma over database values, such as `InsertUserKeeps`. The delete routes write their tables themselves and use the same kind of lemma, such as `DeleteUserKeeps`.
  - Four scenario methods close the module.

Each route's reply is a `Status`: `Ok`, `NoBody`, `MissingField(key)`, `NotFound(kind)`, `AlreadyExists`, `DoesNotExist` or `Fault`. `Fault` stands for an exception the route does not catch. When a route faults, nothing is committed and the store is unchanged.

### Behaviour followed as the code has it

- **Favorite targets:** `add_favorite_planet` and `add_favorite_vehicle` look the target id up in the Characters table (`src/app.py:426`, `src/app.py:465`).
  - The planet route names a missing target "Character"; the vehicle route names it "Vehicle".
  - The default database is SQLite (`src/app.py:17-22`), which does not enforce foreign keys unless asked. A planet or vehicle link may therefore name a row that does not exist.
  - `get_favorites` then raises on such a link: `Store.GetFavorites` returns `Fault` exactly when one of the user's planet or vehicle links does not resolve.
  - `DanglingPlanetScenario` builds such a state.
- **User delete:** `User` cascades only to `favorite_vehicles` (`src/models.py:18-23`). Characters, planets and vehicles cascade to every link naming them (`src/models.py:46-47`, `src/models.py:72-73`, `src/models.py:99-100`).
- **Missing body:** `add_planet`, `add_vehicle` and every `update_*` route test no body for `None`, so a request without a JSON body raises. They reply `Fault`. `add_user` and `add_character` reply `NoBody`.
- **Password:** `User.serialize` never yields the password (`SerializeUserHidesOnlyPassword`).
- **Removing a favorite:** `delete_favorite_*` deletes the row whose id is the first match's id. `Links.DeleteFirstMatch` proves that this removes exactly the first matching link (`RemoveFirst`).

## Model

| member | source | states |
|---|---|---|
| Json.FirstMissing | src/app.py:82-91 | no key is reported exactly when every required key is present; a reported key is absent and every key checked before it is present |
| Tables.Find | src/app.py:67-74 | `query.get(id)`: no row exactly when no row carries the id; a row found is in the table and carries the id |
| Tables.FindUnique | src/models.py:10 | with unique primary keys, looking up a row's id finds that very row |
| Tables.Remove | src/app.py:125-132 | deleting a row keeps every other row, drops every row with that id, removes exactly that id from the key set and keeps keys unique |
| Tables.ReplaceKeepsKeys | src/app.py:104-122 | an update keeps the key set and key uniqueness, and introduces no row except the updated one |
| Tables.FindAfterReplace | src/app.py:104-122 | after an update, looking the id up yields the new columns |
| Tables.FindAfterAppend | src/app.py:98-100 | inserting a row with the next id keeps keys unique and below the new next id, adds exactly that id, makes it findable and changes no other lookup |
| Tables.SerializeAll | src/app.py:57-64 | the list loop yields one serialised entry per row, in table order |
| Models.SerializeUser | src/models.py:28-35 | the user's serialised form has exactly the keys user_id, email, username, first_name, last_name and never the password |
| Models.SerializeUserHidesOnlyPassword | src/models.py:28-35 | two users serialise alike exactly when they agree on everything but the password |
| Models.SerializeCharacter | src/models.py:52-60 | exactly the id and the five declared columns |
| Models.SerializeCharacterInjective | src/models.py:52-60 | two characters serialise alike exactly when they are equal |
| Models.SerializePlanet | src/models.py:78-87 | exactly the id and the six declared columns |
| Models.SerializePlanetInjective | src/models.py:78-87 | two planets serialise alike exactly when they are equal |
| Models.SerializeVehicle | src/models.py:105-114 | exactly the id and the six declared columns |
| Models.SerializeVehicleInjective | src/models.py:105-114 | two vehicles serialise alike exactly when they are equal |
| Models.SerializeFavorite | src/models.py:130-135 | a link serialises to exactly three keys: id, user_id and its target's id key |
| Models.SerializeFavoriteInjective | src/models.py:149-154 | two links of one kind serialise alike exactly when they are equal |
| Models.RemoveKeepsUsersConsistent | src/models.py:11-17 | deleting a user keeps emails and usernames unique and the declared columns non-null |
| Models.RemoveKeepsCharactersConsistent | src/models.py:41 | deleting a character keeps every name non-null |
| Models.AppendUserConsistent | src/models.py:11-17 | a new user passes the commit check exactly when none of its declared columns is null and no stored user has its email or username |
| Links.Filter | src/app.py:392-393 | `filter_by` keeps exactly the links the criterion accepts, never more links than there were |
| Links.MatchingNonEmpty | src/app.py:392-395 | the duplicate check finds a match exactly when a link with that (user, target) pair exists |
| Links.FilterKeepsUnique | src/models.py:73 | a cascade that filters a link table keeps link ids and (user, target) pairs unique |
| Links.AppendKeepsUnique | src/app.py:396-401 | appending a link whose pair is absent keeps pairs unique, and keeps ids unique when its id is fresh |
| Links.FilterAppend | src/app.py:507-509 | a link added last is listed last among the links the criterion keeps |
| Links.FilterCommutes | src/models.py:99-100 | two cascades on one link table, such as deleting a user and deleting a vehicle, leave the same links in either order |
| Links.CascadeByUser | src/models.py:22-23 | after the cascade from a deleted user no link of that user is left, and every other link stays |
| Links.CascadeByTarget | src/models.py:46-47 | after the cascade from a deleted target no link to that target is left, and every other link stays |
| Links.FilterKeepsAll | src/models.py:72-73 | a cascade that matches no link leaves the table as it was |
| Links.FirstIndex | src/app.py:412-415 | the position of the first link with the pair: no earlier link has it, and it lies past the end exactly when there is none |
| Links.RemoveFirstRemovesOne | src/app.py:412-418 | removing the first match changes nothing when there is no match, and otherwise removes exactly one copy of that link |
| Links.SpliceMultiset | src/app.py:416-417 | cutting one link out of a table removes exactly one copy of it from the table's multiset of links |
| Links.FirstMatchFirst | src/app.py:412-416 | `favorites[0]` is the first link with the pair in table order |
| Links.DeleteFirstMatch | src/app.py:451-457 | deleting the row with `favorites[0]`'s id, when link ids are unique, is exactly removing the first match |
| Links.FilterNotIdAt | src/app.py:416-417 | with unique link ids, deleting the row with the id of the link at position i cuts out exactly that position |
| Links.DeleteFavoriteLink | src/app.py:412-417 | when the pair is linked, the query is non-empty, deleting `favorites[0]` is removing the first match, and no link with the pair is left |
| Links.RemoveFirstKeepsUnique | src/app.py:492-498 | removing the first match keeps ids and pairs unique and adds no link |
| Links.RemoveFirstClearsPair | src/app.py:492-498 | with unique pairs, no link with the pair is left after removing the first |
| Links.Resolve | src/app.py:503-519 | the serialised target of each link in order, present exactly when every target exists |
| Requests.PatchUser | src/app.py:110-119 | a body without user columns leaves the user unchanged; the password follows the body when given |
| Requests.PatchCharacter | src/app.py:190-199 | a body without character columns leaves the character unchanged |
| Requests.PatchPlanet | src/app.py:271-283 | a body without planet columns leaves the planet unchanged |
| Requests.PatchVehicle | src/app.py:354-366 | a body without vehicle columns leaves the vehicle unchanged |
| Requests.PatchUserOverrides | src/app.py:104-122 | the updated user, serialised, is the old one overridden by the body's entries for the serialised user columns |
| Requests.PatchCharacterOverrides | src/app.py:184-202 | the updated character, serialised, is the old one overridden by the body's entries for the character columns |
| Requests.PatchPlanetOverrides | src/app.py:265-285 | the updated planet, serialised, is the old one overridden by the body's entries for the planet columns |
| Requests.PatchVehicleOverrides | src/app.py:348-368 | the updated vehicle, serialised, is the old one overridden by the body's entries for the vehicle columns |
| Requests.PatchUserIdempotent | src/app.py:104-122 | sending the same user update twice has the effect of sending it once |
| Requests.PatchCharacterIdempotent | src/app.py:184-202 | sending the same character update twice has the effect of sending it once |
| Requests.PatchPlanetIdempotent | src/app.py:265-285 | sending the same planet update twice has the effect of sending it once |
| Requests.PatchVehicleIdempotent | src/app.py:348-368 | sending the same vehicle update twice has the effect of sending it once |
| Requests.NewUser | src/app.py:93-98 | a new user's columns are all the body's, whatever record the body is applied to |
| Requests.NewCharacter | src/app.py:164-178 | a new character is the defaults record (gender and birthdate 'N/A') updated with the body |
| Requests.NewPlanet | src/app.py:242-259 | a new planet is the defaults record (climate and terrain 'N/A', numbers 0) updated with the body |
| Requests.NewVehicle | src/app.py:324-342 | a new vehicle is the defaults record (number_crew 1, model 'N/A', other numbers 0) updated with the body |
| Requests.NewRecordsOverrideDefaults | src/app.py:237-262 | a created record, serialised, is its defaults overridden by the body's entries for its columns |
| Catalog.InsertUserKeeps | src/app.py:99-100 | a new user row that passes the commit check, with the next id, keeps the invariant |
| Catalog.InsertCharacterKeeps | src/app.py:179-180 | a new character with a name, with the next id, keeps the invariant |
| Catalog.InsertPlanetKeeps | src/app.py:260-261 | a new planet with the next id keeps the invariant |
| Catalog.InsertVehicleKeeps | src/app.py:343-344 | a new vehicle with the next id keeps the invariant |
| Catalog.UpdateUserKeeps | src/app.py:121 | an update of a present user whose result passes the commit check keeps the invariant |
| Catalog.UpdateCharacterKeeps | src/app.py:201 | an update of a present character leaving the name non-null keeps the invariant |
| Catalog.UpdatePlanetKeeps | src/app.py:284 | any update of a present planet keeps the invariant |
| Catalog.UpdateVehicleKeeps | src/app.py:367 | any update of a present vehicle keeps the invariant |
| Catalog.DeleteUserKeeps | src/app.py:130-131 | deleting a user with its vehicle-link cascade keeps the invariant, including that every vehicle link names an existing user |
| Catalog.DeleteCharacterKeeps | src/app.py:210-211 | deleting a character with its cascade keeps the invariant, including that every character link names an existing character |
| Catalog.DeletePlanetKeeps | src/app.py:293-294 | deleting a planet with its cascade keeps the invariant |
| Catalog.DeleteVehicleKeeps | src/app.py:376-377 | deleting a vehicle with its cascade keeps the invariant |
| Catalog.AddFavoriteCharacterKeeps | src/app.py:396-400 | a new link to an existing character for an unlinked pair keeps the invariant |
| Catalog.AddFavoritePlanetKeeps | src/app.py:435-439 | a new planet link for an unlinked pair keeps the invariant, whatever its target |
| Catalog.AddFavoriteVehicleKeeps | src/app.py:476-480 | a new vehicle link from an existing user for an unlinked pair keeps the invariant, whatever its target |
| Catalog.DeleteFavoriteCharacterKeeps | src/app.py:416-417 | removing the first character link of a pair keeps the invariant |
| Catalog.DeleteFavoritePlanetKeeps | src/app.py:455-456 | removing the first planet link of a pair keeps the invariant |
| Catalog.DeleteFavoriteVehicleKeeps | src/app.py:496-497 | removing the first vehicle link of a pair keeps the invariant |
| Catalog.FillPlanetDefaults | src/app.py:242-259 | filling the absent optional keys with their defaults and reading the columns yields the new-planet record |
| Catalog.FillVehicleDefaults | src/app.py:324-341 | filling the absent optional keys with their defaults and reading the columns yields the new-vehicle record |
| Catalog.CopyUserFields | src/app.py:110-120 | the key-by-key copy of the body yields the patched user |
| Catalog.CopyCharacterFields | src/app.py:190-200 | the key-by-key copy of the body yields the patched character |
| Catalog.CopyPlanetFields | src/app.py:271-283 | the key-by-key copy of the body yields the patched planet |
| Catalog.CopyVehicleFields | src/app.py:354-366 | the key-by-key copy of the body yields the patched vehicle |
| Catalog.Store.constructor | src/models.py:8-17 | the empty store satisfies the invariant |
| Catalog.Store.GetUsers | src/app.py:57-64 | one serialised user per row, in table order |
| Catalog.Store.GetCharacters | src/app.py:137-144 | one serialised character per row, in table order |
| Catalog.Store.GetPlanets | src/app.py:217-224 | one serialised planet per row, in table order |
| Catalog.Store.GetVehicles | src/app.py:300-306 | one serialised vehicle per row, in table order |
| Catalog.Store.GetUser | src/app.py:67-74 | nothing exactly when the id is absent, otherwise the serialised user with that id |
| Catalog.Store.GetCharacter | src/app.py:147-154 | nothing exactly when the id is absent, otherwise the serialised character with that id |
| Catalog.Store.GetPlanet | src/app.py:227-234 | nothing exactly when the id is absent, otherwise the serialised planet with that id |
| Catalog.Store.GetVehicle | src/app.py:309-316 | nothing exactly when the id is absent, otherwise the serialised vehicle with that id |
| Catalog.Store.InsertUser | src/app.py:99-100 | a user row that passes the commit check is appended with the next id, the invariant kept and nothing else changed |
| Catalog.Store.InsertCharacter | src/app.py:179-180 | a character with a name is appended with the next id, nothing else changed |
| Catalog.Store.InsertPlanet | src/app.py:260-261 | a planet is appended with the next id, nothing else changed |
| Catalog.Store.InsertVehicle | src/app.py:343-344 | a vehicle is appended with the next id, nothing else changed |
| Catalog.Store.ReplaceUser | src/app.py:121 | committing an update that passes the check rewrites only that user's columns, keeps the invariant, and the id then finds the new columns |
| Catalog.Store.ReplaceCharacter | src/app.py:201 | committing an update with a non-null name rewrites only that character's columns and keeps the invariant |
| Catalog.Store.ReplacePlanet | src/app.py:284 | committing an update rewrites only that planet's columns and keeps the invariant |
| Catalog.Store.ReplaceVehicle | src/app.py:367 | committing an update rewrites only that vehicle's columns and keeps the invariant |
| Catalog.Store.LinkCharacter | src/app.py:396-400 | committing a new character link appends it with the next link id, keeps the invariant and changes nothing else |
| Catalog.Store.LinkPlanet | src/app.py:435-439 | committing a new planet link appends it with the next link id, keeps the invariant and changes nothing else |
| Catalog.Store.LinkVehicle | src/app.py:476-480 | committing a new vehicle link appends it with the next link id, keeps the invariant and changes nothing else |
| Catalog.Store.UnlinkCharacter | src/app.py:416-417 | deleting `favorites[0]` removes exactly the pair's first character link, leaves none with the pair and keeps the invariant |
| Catalog.Store.UnlinkPlanet | src/app.py:455-456 | deleting `favorites[0]` removes exactly the pair's first planet link, leaves none with the pair and keeps the invariant |
| Catalog.Store.UnlinkVehicle | src/app.py:496-497 | deleting `favorites[0]` removes exactly the pair's first vehicle link, leaves none with the pair and keeps the invariant |
| Catalog.Store.AddUser | src/app.py:77-101 | NoBody without a body; the first missing required key, in the route's order; Fault exactly when the commit check refuses; otherwise exactly one new row with the body's columns and a fresh id; no change unless Ok |
| Catalog.Store.AddCharacter | src/app.py:157-181 | NoBody without a body; the first missing of name, height, weight; Fault exactly when the name is null; otherwise exactly one new row, defaults filled; no change unless Ok |
| Catalog.Store.AddPlanet | src/app.py:237-262 | Fault without a body; MissingField without planet_name; otherwise exactly one new row, defaults filled; no change unless Ok |
| Catalog.Store.AddVehicle | src/app.py:319-345 | Fault without a body; MissingField without vehicle_name; otherwise exactly one new row, defaults filled; no change unless Ok |
| Catalog.Store.UpdateUser | src/app.py:104-122 | NotFound exactly when the id is absent; Ok exactly when a body is given and the patched table passes the commit check; then only that row's columns change, to the patch |
| Catalog.Store.UpdateCharacter | src/app.py:184-202 | NotFound exactly when the id is absent; Ok exactly when a body is given and the patched name is not null; then only that row changes |
| Catalog.Store.UpdatePlanet | src/app.py:265-285 | NotFound exactly when the id is absent; Fault exactly when there is no body; otherwise only that row changes, to the patch |
| Catalog.Store.UpdateVehicle | src/app.py:348-368 | NotFound exactly when the id is absent; Fault exactly when there is no body; otherwise only that row changes, to the patch |
| Catalog.Store.DeleteUser | src/app.py:125-132 | NotFound and no change when the id is absent; otherwise exactly that user is removed and every vehicle link of that user, and nothing else (for a user with character or planet links the source's commit fails instead; see Left out) |
| Catalog.Store.DeleteCharacter | src/app.py:205-212 | NotFound and no change when the id is absent; otherwise exactly that row is removed and every link naming it, keeping every other link |
| Catalog.Store.DeletePlanet | src/app.py:288-295 | NotFound and no change when the id is absent; otherwise exactly that row is removed and every link naming it, keeping every other link |
| Catalog.Store.DeleteVehicle | src/app.py:371-378 | NotFound and no change when the id is absent; otherwise exactly that row is removed and every link naming it, keeping every other link |
| Catalog.Store.AddFavoriteCharacter | src/app.py:384-401 | NotFound(User), NotFound(Character), AlreadyExists or Ok exactly in the route's cases; Ok appends one link with a fresh id, listed last among the user's links; no change unless Ok |
| Catalog.Store.AddFavoritePlanet | src/app.py:423-440 | as for characters, but the target is looked up among the characters and a missing one is reported as a Character |
| Catalog.Store.AddFavoriteVehicle | src/app.py:462-481 | as for characters, but the target is looked up among the characters and a missing one is reported as a Vehicle |
| Catalog.Store.DeleteFavoriteCharacter | src/app.py:404-418 | NotFound(User), NotFound(Character), DoesNotExist or Ok exactly in the route's cases; Ok removes exactly the first matching link and leaves none with the pair; no change unless Ok |
| Catalog.Store.DeleteFavoritePlanet | src/app.py:443-457 | as for characters, the target checked among the planets |
| Catalog.Store.DeleteFavoriteVehicle | src/app.py:484-498 | as for characters, the target checked among the vehicles |
| Catalog.Store.GetFavorites | src/app.py:503-519 | NotFound exactly when the user is absent; Fault exactly when a planet or vehicle link of the user does not resolve; otherwise each list holds the serialised target of each of the user's links, in link order |
| Catalog.UserStore | src/app.py:77-101 | a valid body creates the first user, with id 1 |
| Catalog.LukeStore | src/app.py:157-181 | a character body with name, height and weight creates the first character, with id 1 and defaults filled |
| Catalog.LukeScenario | src/app.py:384-401 | adding the same favorite twice reports AlreadyExists the second time; the listing holds the character once; after the character is deleted the list is empty, without failure |
| Catalog.DanglingPlanetScenario | src/app.py:423-440 | a character id accepted as a planet id yields a link that makes get_favorites fail |

## Left out

- The Flask application, its configuration, Migrate, CORS, the admin views (`src/admin.py`), the sitemap and the `/user` hello route: process plumbing.
- JSON parsing: a body is either absent or a JSON object. A body that is some other JSON value is not modelled.
- HTTP status codes and the message texts: a route's reply is its `Status` kind.
- The trailing commas in the create routes, which assign one-element tuples: the model stores the plain value.
- Column types and lengths, and type checking by the database: every column holds whatever JSON value the body carried. `cargo_capacity` is a Float column, and no float semantics are modelled.
- Only the constraints the schema spells out are checked at commit. These are `unique=True` and `nullable=False` on the user columns, and `nullable=False` on a character's name. Nullability derived only from the `Mapped[...]` annotations is not modelled.
- Foreign keys are not enforced, as under the default SQLite configuration. With enforcement, the dangling links described above would make the add route fail instead.
- Primary keys come from a counter per table that only grows. A database that reuses the highest deleted id is not modelled.
- Catalog.Store.DeleteUser: the model deletes the user, cascades to the user's vehicle links and keeps the user's character and planet links unchanged.
  - In the source, the ORM would set the `user_id` of those character and planet links to null, since `User.favorite_characters` and `User.favorite_planets` declare no delete cascade (`src/models.py:18-21`).
  - That column is `Mapped[int]` (`src/models.py:120`, `src/models.py:141`), so it is NOT NULL, and the source's commit at `src/app.py:130-131` fails.
  - For a user with any character or planet favorite, `delete_user` therefore faults and deletes nothing, whereas the model returns `Ok`.
  - The model agrees with the source for users without such links.
  - The reason is the one given above: nullability that comes only from `Mapped[...]` annotations is not modelled.
- The race between the duplicate check and the insert of `add_favorite_*`: each route is one atomic step.
- The session mechanics: a route either commits all its changes or none.
- The `print` call of `add_favorite_vehicle`: console output.
- Query results come in primary-key order, as SQLite's table scan returns them. No route uses `order_by` (`src/app.py:59`, `src/app.py:412`, `src/app.py:509-515` and the like), so another database may list rows, and pick `favorites[0]`, in another order. The order claims of `Store.GetUsers`, `Store.GetCharacters`, `Store.GetPlanets`, `Store.GetVehicles`, `Store.GetFavorites`, `Store.AddFavorite*` ("listed last") and `Store.DeleteFavorite*` ("the first match") hold for that scan order only. An updated row keeps its place in the model.
