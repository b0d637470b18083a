/** Sessions with the store, following the flows of kings_server/views.py, checked from the
    handlers' contracts alone. */
module Scenarios {
  import opened Utf8
  import opened Schema
  import opened Collections
  import opened Views
  import Security

  function Corolla(): map<string, Value> {
    map["manufacturer" := Str("Toyota"), "model" := Str("Corolla"), "year" := Int(2020),
        "color" := Str("Blue"), "vin" := Str("1HGCM82633A004352")]
  }

  lemma CorollaIsValid()
    ensures ValidateCar(Corolla()).Success?
  {
    var m := Corolla();
    assert m.Keys == Declared;
    assert IsName(m["manufacturer"]) && IsName(m["model"]) && IsYear(m["year"]);
    assert IsName(m["color"]) && IsVin(m["vin"]);
  }

  /** Register, then log in with the right password and with an unknown name. */
  method RegisterAndLogin(b: Security.Bcrypt, entropy: seq<Byte>)
    requires Security.Laws(b)
  {
    var store := new Store(b);
    var alice := store.NewUser("alice", "Secret123!", entropy);
    RegisteredUserLogsIn(b, [], alice, "alice", "Secret123!", entropy);
    assert store.CheckLogin("alice", "Secret123!") == Nice;
    assert store.CheckLogin("bob", "x") == UserNotMatch;
  }

  /** A valid car is stored and listed; the same VIN again is refused and nothing is stored. */
  method CreateThenDuplicate(b: Security.Bcrypt, t0: nat, t1: nat)
    requires Security.Laws(b)
  {
    var store := new Store(b);
    CorollaIsValid();
    var created := store.MainPost(Corolla(), t0);
    assert created.Listed? && |store.cars| == 1 && |created.cars| == 1;
    var again := store.MainPost(Corolla(), t1);
    assert again == VinNotUnique && |store.cars| == 1;
  }

  /** A year before 1900 is refused with an error on "year" and nothing is stored. */
  method YearTooEarly(b: Security.Bcrypt, t0: nat)
    requires Security.Laws(b)
  {
    var store := new Store(b);
    var refused := store.MainPost(Corolla()["year" := Int(1899)], t0);
    assert refused.Invalid? && "year" in refused.errors && store.cars == [];
  }

  /** Search finds the Corolla by manufacturer and nothing for another make. */
  method SearchByManufacturer(b: Security.Bcrypt, t0: nat)
    requires Security.Laws(b)
  {
    var store := new Store(b);
    CorollaIsValid();
    var created := store.MainPost(Corolla(), t0);
    var car := store.cars[0];
    assert store.cars == [car] && HasField(car, "manufacturer", Str("Toyota"));
    var toyotas := store.Search("manufacturer", "Toyota");
    assert car in toyotas;
    assert |multiset(toyotas)| <= |multiset(store.cars)|;
    var hondas := store.Search("manufacturer", "Honda");
    assert !HasField(car, "manufacturer", Str("Honda"));
    assert car !in hondas;
    assert multiset(hondas) <= multiset([car]);
    assert |hondas| == 0;
  }

  /** Deleting an id no car has changes nothing. */
  method DeleteUnknown(b: Security.Bcrypt, t0: nat)
    requires Security.Laws(b)
  {
    var store := new Store(b);
    CorollaIsValid();
    var created := store.MainPost(Corolla(), t0);
    var cars := store.cars;
    store.DeleteCar(cars[0].id + 1);
    assert store.cars == cars;
  }
}
