/**
  The backing store the handlers reach through kvDbConnector: a table of KV
  rows (model/main.go) whose key_name column carries a unique index, so the
  store is a map from key to value. Each gorm call is modelled by what it
  does to that map and what it reports; whether the database fails on a call
  is not visible in the code, so it comes in as a parameter.
 */
module Store {

  type Db = map<string, string>

  /** What Where("key_name = ?", key).First(&row).Error reports. */
  datatype Lookup = Found(value: string) | RecordNotFound | DbError

  /** First: the row's value when the key is stored, ErrRecordNotFound when it is not, an error on a failure. */
  function First(db: Db, key: string, fails: bool): (r: Lookup)
    ensures r.DbError? <==> fails
    ensures r.Found? <==> !fails && key in db
    ensures r.Found? ==> r.value == db[key]
    ensures r.RecordNotFound? <==> !fails && key !in db
  {
    if fails then DbError
    else if key in db then Found(db[key])
    else RecordNotFound
  }

  /**
    Create: inserts the row, unless the database fails or the unique index on
    key_name already holds the key; the boolean is whether it reported an error.
   */
  function Create(db: Db, key: string, value: string, fails: bool): (r: (Db, bool))
    ensures !r.1 <==> !fails && key !in db
    ensures !r.1 ==> r.0 == db[key := value]
    ensures r.1 ==> r.0 == db
  {
    if fails || key in db then (db, true)
    else (db[key := value], false)
  }

  /** Delete: removes the row, unless the database fails; the boolean is whether it reported an error. */
  function Delete(db: Db, key: string, fails: bool): (r: (Db, bool))
    ensures r.1 <==> fails
    ensures !r.1 ==> r.0 == db - {key} && key !in r.0
    ensures r.1 ==> r.0 == db
  {
    if fails then (db, true)
    else (db - {key}, false)
  }

  /** A pair Create accepted is what the next lookup finds. */
  lemma CreateThenFirst(db: Db, key: string, value: string, fails: bool)
    requires !Create(db, key, value, fails).1
    ensures First(Create(db, key, value, fails).0, key, false) == Found(value)
  {
  }

  /** The unique index on key_name: a Create of a stored key reports an error and the stored value stays. */
  lemma CreateStoredKeyFails(db: Db, key: string, value: string, fails: bool)
    requires key in db
    ensures Create(db, key, value, fails).1
    ensures First(Create(db, key, value, fails).0, key, false) == Found(db[key])
  {
  }

  /** A key Delete removed is not found by the next lookup; a failed Delete leaves the lookup as it was. */
  lemma DeleteThenFirst(db: Db, key: string, fails: bool)
    ensures !Delete(db, key, fails).1 ==> First(Delete(db, key, fails).0, key, false) == RecordNotFound
    ensures Delete(db, key, fails).1 ==> First(Delete(db, key, fails).0, key, false) == First(db, key, false)
  {
  }
}
