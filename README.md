# kingz: vehicle inventory backend, modelled in Dafny

This project models the core of the `kings_server` backend. That backend stores car records and
user accounts in MongoDB behind an aiohttp web front. The model covers three parts:

- **Car schema** (`kings_server/db.py`). This is the trafaret `car` dictionary schema. Validating
  a field mapping gives either a `Car` or a map of per-field errors.
- **Password hashing** (`kings_server/security.py`). `generate_password_hash` encodes the password
  as UTF-8, hashes it with bcrypt and stores the Base64 text of the result. `check_password_hash`
  decodes that text and re-hashes the password with it as the salt. UTF-8 and Base64 (section 4
  of RFC 4648) are modelled concretely. bcrypt is not: its `gensalt`, `hashpw` and salt check are
  function values passed in, and `Security.Laws` states what the model assumes of them.
- **Handlers** (`kings_server/views.py`). The `user` and `cars` collections live in a `Store` object
  as sequences of documents in insertion order. The handlers that change the collections are
  methods: `new_user`, the POST branch of `main`, `delete_car` and `save_edit`. The read-only ones
  are functions of the store: `check_login`, `db_fetch_all`, `edit_car` and `search`.
  `Collections` holds the MongoDB operations they use, as pure functions over a sequence:
  `find_one`, `delete_one`, `update_one` with `$set`, and `find().sort('timestamp')` read with
  `to_list(length=100)`.

Modules: `Wrappers` (Option, Result), `Utf8`, `Base64`, `Security`, `Schema`, `Collections`,
`Views`, and `Scenarios`. `Scenarios` holds short client sessions (register then log in, create
then duplicate, a year before 1900, search, delete of an unknown id). They are proved from the
handlers' contracts alone.

Behaviour of the code that the model keeps as written:

- A key outside the five declared keys is rejected with "is not allowed key". This is trafaret
  `Dict`'s default, since no `allow_extra` is given. It is not ignored.
- `check_password_hash` does not catch decode or bcrypt errors. A malformed stored value is
  therefore a precondition (`Security.IsStoredHash`). It is not a `false` result.
- `new_user` does not check for an existing username. `check_login` uses the first user with
  the name.
- VIN uniqueness rests only on the pre-check in `main`. `setup_db` creates no unique index, and
  `save_edit` can give a car a VIN another car already has (`Collections.UpdateCanDuplicateVin`).
- `search` puts the posted field name straight into the query. There is no allow-list.
- The code has no sessions, identity resolution or request guard, so neither does the model.

Uncaught Python exceptions become preconditions:

- `KeyError` on `post['vin']` in `main`.
- `KeyError` on `data['car_id']` in `save_edit` (`Views.Store.SaveEdit` requires `"car_id"`).
- An invalid cost in `gensalt` (bcrypt accepts 4 to 31).
- A `$set` of `_id` on an existing document.
- A stored hash that does not decode, or that bcrypt refuses as a salt.

## Model

| member | source | states |
|---|---|---|
| `Utf8.Encode` | kings_server/security.py:7 | `str.encode('utf-8')` gives between one and four bytes per character |
| `Utf8.Decode` | kings_server/security.py:10 | `bytes.decode('utf-8')` on well-formed bytes gives one character per one to four bytes |
| `Utf8.EncodeWellFormed` | kings_server/security.py:7 | the UTF-8 bytes of any text are well-formed UTF-8 |
| `Utf8.DecodeEncode` | kings_server/security.py:7 | decoding the UTF-8 bytes of a text gives back that text |
| `Utf8.EncodeDecode` | kings_server/security.py:10 | re-encoding decoded well-formed bytes gives back those bytes |
| `Utf8.EncodeInjective` | kings_server/security.py:15 | two texts with equal UTF-8 bytes are equal, so the bytes determine the text |
| `Utf8.AsciiDecode` | kings_server/security.py:10 | ASCII bytes always decode, one character per byte, each with the byte's code |
| `Base64.Letter` | kings_server/security.py:9 | each six-bit value maps to a letter of the RFC 4648 alphabet that maps back to it |
| `Base64.EncodeOne` | kings_server/security.py:9 | one final byte becomes two letters and `==`, which decode back to that byte |
| `Base64.EncodeTwo` | kings_server/security.py:9 | two final bytes become three letters and `=`, which decode back to those bytes |
| `Base64.EncodeThree` | kings_server/security.py:9 | three bytes become four letters that decode back to those bytes |
| `Base64.Encode` | kings_server/security.py:9 | `b64encode` of n bytes has exactly 4·⌈n/3⌉ bytes |
| `Base64.EncodeShape` | kings_server/security.py:9 | the encoding is accepted by the decoder, has 4·⌈n/3⌉ bytes, and holds only alphabet letters and `=` |
| `Base64.DecodeEncode` | kings_server/security.py:17 | decoding the encoding of any bytes gives back exactly those bytes |
| `Security.TextOfEncoding` | kings_server/security.py:9-10 | the Base64 bytes read as text re-encode to the same bytes, have 4·⌈n/3⌉ characters and use only the alphabet and `=` |
| `Security.GeneratePasswordHash` | kings_server/security.py:5-10 | the stored text is Base64 of bcrypt(UTF-8 password, salt of the given cost, 10 by default), decodes back to exactly those bcrypt bytes, has 4·⌈n/3⌉ characters, and uses only the alphabet and `=` |
| `Security.CheckPasswordHash` | kings_server/security.py:13-19 | true iff bcrypt of the UTF-8 password, salted with the Base64-decoded UTF-8 bytes of the stored text, equals those decoded bytes, which is the same as their Base64 texts being equal; requires the stored text to be Base64 of something bcrypt accepts as a salt |
| `Security.GeneratedIsStored` | kings_server/security.py:5-19 | under the bcrypt laws every generated hash meets `check_password_hash`'s preconditions |
| `Security.CheckAfterGenerate` | kings_server/security.py:13-19 | checking a password against the hash generated from it returns true, under the embedded-salt law |
| `Schema.CheckString` | kings_server/db.py:4-8 | a string rule passes iff the value is a non-blank string within the length bounds, and returns it unchanged; otherwise it gives "not a string", "blank", "shorter than" or "longer than" |
| `Schema.CheckInt` | kings_server/db.py:6 | an integer rule passes iff the value is an int within [gte, lte]; otherwise "not int", "less than" or "greater than" |
| `Schema.ValidateCar` | kings_server/db.py:3-9 | succeeds iff exactly the five keys are present, the three names are non-blank strings of at most 50, the year is an int in [1900, 2100] and the VIN a string of 17; on success the car is exactly the input; on failure there is an error for every missing key ("is required"), every extra key ("is not allowed key") and every failing value, and for no other key |
| `Schema.YearRule` | kings_server/db.py:6 | an accepted year lies in [1900, 2100]; a smaller one fails on "year" with "less than 1900", a larger one with "greater than 2100" |
| `Schema.LongNameRule` | kings_server/db.py:4-7 | a manufacturer, model or color longer than 50 fails with "longer than 50" on that field |
| `Schema.VinRule` | kings_server/db.py:8 | a non-empty VIN of any length but 17 fails on "vin" with "shorter than 17" or "longer than 17" |
| `Collections.FindByVin` | kings_server/views.py:64-65 | the pre-check finds nothing iff no stored car has that "vin", and what it finds is a stored car with that "vin" |
| `Collections.FindById` | kings_server/views.py:132 | nothing is found iff no document has the id; with unique ids the result is the document with that id |
| `Collections.DeleteOne` | kings_server/views.py:123 | an unknown id leaves the collection as it was; otherwise exactly the first document with that id is removed and the rest keep their order |
| `Collections.SetFields` | kings_server/views.py:141 | `$set` keeps the id, adds the posted keys, gives each posted key its posted value and leaves every other field as it was |
| `Collections.UpdateOne` | kings_server/views.py:141 | an unknown id changes nothing; otherwise only the first document with that id changes, by `$set`, and all others stay |
| `Collections.SortByTime` | kings_server/views.py:29 | the result is in non-decreasing timestamp order and is a permutation of the input |
| `Collections.Listing` | kings_server/views.py:29-30 | at most 100 documents (all of them when there are fewer), in timestamp order, each from the collection, and none left out sorts earlier than one returned |
| `Collections.Filter` | kings_server/views.py:150 | keeps exactly the documents whose field holds the query string, with their multiplicities |
| `Collections.UpdateCanDuplicateVin` | kings_server/views.py:139-142 | there is a collection with unique VINs and ids where a `$set` makes two cars share a VIN |
| `Views.FindUser` | kings_server/views.py:44-46 | nothing is found iff no user has the name; otherwise the result is the first user with that name |
| `Views.Login` | kings_server/views.py:42-50 | "User not match" iff no user has the name; "Nice" iff the first such user's hash accepts the password; "Incorrect pass" iff it does not |
| `Views.RegisteredUserLogsIn` | kings_server/views.py:33-50 | after `new_user` under a name not yet taken, `check_login` with that password returns "Nice" |
| `Views.TakenNameIsShadowed` | kings_server/views.py:33-50 | registering a name that is already taken changes no login outcome for that name |
| `Views.AppendKeepsVinsUnique` | kings_server/views.py:64-72 | adding a car whose VIN the pre-check did not find keeps VINs unique |
| `Views.DeleteKeepsOthers` | kings_server/views.py:121-124 | with unique ids, deleting by id keeps ids unique and keeps exactly the documents with other ids |
| `Views.Store.constructor` | kings_server/views.py:20-24 | a new store holds no users and no cars |
| `Views.Store.NewUser` | kings_server/views.py:33-39 | appends one user with the name and the cost-10 hash of the password, never the password; cars are unchanged |
| `Views.Store.CheckLogin` | kings_server/views.py:42-50 | exactly one of the three statuses, as `Views.Login` states, over the stored users |
| `Views.Store.FetchAll` | kings_server/views.py:27-30 | at most 100 cars, in timestamp order, from the collection, none left out earlier than one returned |
| `Views.Store.MainPost` | kings_server/views.py:62-79 | a VIN already stored gives "VIN must be unique" and no change; otherwise failing validation gives the per-field errors and no change; otherwise exactly one document is added, holding the posted fields plus "timestamp", and the answer is the listing; unique VINs stay unique; users are unchanged |
| `Views.Store.DeleteCar` | kings_server/views.py:121-124 | the collection becomes `delete_one` of the id: exactly the documents with other ids remain, and an unknown id changes nothing |
| `Views.Store.EditCar` | kings_server/views.py:130-134 | the car with that id if there is one, and nothing otherwise |
| `Views.Store.SaveEdit` | kings_server/views.py:139-142 | the collection becomes `update_one` with `$set` of every posted key (`car_id` included) on that id; nothing is validated and users are unchanged |
| `Views.Store.Search` | kings_server/views.py:148-152 | only cars whose field equals the query string, at most 100 (all when there are no more), in timestamp order, none of the matching ones left out earlier than one returned |

## Left out

- Request parsing, `HTTPFound`/`HTTPUnauthorized`/`json_response`, jinja2 templates, routes,
  and the `login`/`register` handlers. Those handlers only turn statuses into responses.
  `api_v01.py` is not part of this model.
- `ObjectId(data['car_id'])`: the handlers take the parsed id. The error on a malformed
  `car_id` is not modelled. ObjectId generation becomes a counter in the store.
- Views.Store.constructor: the model starts from an empty database. `setup_db` opens the
  persistent `kings_db` with whatever it already holds; `Views.Store.Valid` (stored hashes that
  decode to bcrypt salts, unique ids) holds only for data this code wrote.
- `datetime.now()`: the timestamp, as the stored millisecond count, is a parameter of
  `Views.Store.MainPost`.
- bcrypt internals and the randomness of `gensalt`. The random bytes are a parameter, and bcrypt
  is three function values constrained by `Security.Laws`.
- Security.Bcrypt: `hashpw` is total in the model. Its version-dependent refusals of a password
  (a `ValueError` on a NUL byte in pyca/bcrypt 3.x, on more than 72 bytes in 5.0) and the silent
  truncation to the first 72 bytes in earlier versions are not captured, so
  `generate_password_hash` and `check_password_hash` never fail on such a password here.
- That a wrong password is refused. This holds only with overwhelming probability, and the
  model assumes nothing about bcrypt collisions. For the same reason, "the stored hash never
  equals the password" is not proved.
- `b64decode` is lenient and silently drops characters outside the alphabet. The model's
  decoder accepts only alphabet characters with correct padding. A stored value with stray
  characters is outside `Security.IsStoredHash`.
- Form values arrive as text. Whether `t.Int` converts a text year depends on the trafaret
  version, so the model validates typed values, and `Schema.CheckInt` accepts only integers.
  Floats, booleans and None are `Other` and are rejected by every rule.
- MongoDB query semantics beyond equality on scalar fields are not modelled: array matching,
  dotted paths, `$` operators in a posted field name, and type bracketing.
  - Sort order among documents whose "timestamp" is missing or is not a date is not modelled.
    Such documents can only arise through `save_edit`. They sort before every date, as in BSON
    order, and count as ties among themselves.
  - The order of ties is the insertion order. MongoDB leaves it unspecified.
- asyncio concurrency and the race between the VIN `find_one` and `insert_one`. The model is
  sequential.
- The `logger` calls.
