/**
 * The key-value store (src/database.rs): a hash map from text keys to typed
 * values, written by insert-or-replace and read by exact-key lookup.
 */
module Database {
  import opened Wrappers
  import opened Types

  class Database {
    /** The `HashMap<String, TypedValue>`; insertion order is not observable. */
    var data: map<string, TypedValue>

    /** `Database::new`: an empty store. */
    constructor ()
      ensures data == map[]
    {
      data := map[];
    }

    /** `Database::set`: insert, or replace the value already under `key`. */
    method Set(key: string, value: TypedValue)
      modifies this
      ensures data == old(data)[key := value]
      ensures key in data && data[key] == value
      ensures forall k :: k != key ==> (k in data <==> k in old(data))
      ensures forall k :: k != key && k in data ==> data[k] == old(data)[k]
    {
      data := data[key := value];
    }

    /**
     * `Database::get`: the value stored under exactly `key`, or `None`.
     * It has no `modifies` clause, so it leaves the store as it was.
     */
    method Get(key: string) returns (r: Option<TypedValue>)
      ensures r.Some? <==> key in data
      ensures r.Some? ==> r.value == data[key]
    {
      if key in data {
        r := Some(data[key]);
      } else {
        r := None;
      }
    }
  }

  /** A freshly constructed store has nothing under any key. */
  method FreshStoreIsEmpty(key: string) returns (r: Option<TypedValue>)
    ensures r == None
  {
    var db := new Database();
    r := db.Get(key);
  }

  /** Reading a key right after setting it gives the value just set, whatever the store held before. */
  method SetThenGet(db: Database, key: string, value: TypedValue) returns (r: Option<TypedValue>)
    modifies db
    ensures r == Some(value)
    ensures db.data == old(db.data)[key := value]
  {
    db.Set(key, value);
    r := db.Get(key);
  }

  /** The second of two writes to one key wins, whatever the store held before. */
  method OverwriteThenGet(db: Database, key: string, first: TypedValue, second: TypedValue) returns (r: Option<TypedValue>)
    modifies db
    ensures r == Some(second)
    ensures db.data == old(db.data)[key := second]
  {
    db.Set(key, first);
    db.Set(key, second);
    r := db.Get(key);
  }

  /**
   * Writing one key does not disturb another, and lookup is by exact string
   * equality: a key that differs in any character, letter case included, is
   * a different key.
   */
  method SetLeavesOtherKeys(db: Database, key: string, value: TypedValue, other: string)
    returns (before: Option<TypedValue>, after: Option<TypedValue>)
    requires other != key
    modifies db
    ensures before == after
    ensures db.data == old(db.data)[key := value]
  {
    before := db.Get(other);
    db.Set(key, value);
    after := db.Get(other);
  }

  /** The unit test: `set("foo", Text("bar"))` then `get("foo")`; and `get("FOO")` finds nothing. */
  method InsertAndGetExample() returns (found: Option<TypedValue>, otherCase: Option<TypedValue>)
    ensures found == Some(Text("bar"))
    ensures otherCase == None
  {
    var db := new Database();
    db.Set("foo", Text("bar"));
    found := db.Get("foo");
    otherCase := db.Get("FOO");
  }
}
