/**
  The three request handlers of the key-value service (addKeyValue.go,
  deleteKeyValue.go, getKeyValue.go) over the two pieces of global state they
  share: the store behind kvDbConnector and the LRU cache built at start-up
  with capacity 200. Each handler validates its input, asks the store, picks a
  status, and decides whether to change the store and the cache. The *Step
  functions give each handler's outcome on (store, cached entries); the
  KvService methods run the handlers on the real cache and are proved against them.
 */
module Handlers {
  import LruSpec
  import opened Store
  import Cache

  // The status codes of main.go.
  const StatusBadRequest := 400
  const StatusConflict := 409
  const StatusInternalServerError := 500
  const StatusOK := 200
  const StatusCreated := 201
  const StatusNotFound := 404
  const StatusUnauthorized := 401
  const StatusForbidden := 403

  /** The capacity startServer gives the cache. */
  const Capacity := 200

  /** SetKeyValueResponse and DeleteKeyValueResponse. */
  datatype Response = Response(message: string, statusCode: int)

  /** GetKVResponse; Value is the empty string unless the key was found. */
  datatype GetResponse = GetResponse(message: string, statusCode: int, value: string)

  /** Whether the store's lookup call, and its write call (Create or Delete), fail. */
  datatype Faults = Faults(lookup: bool, write: bool)

  /** The store and the cached entries, most recently used first. */
  datatype State = State(db: Db, cache: seq<LruSpec.Entry>)

  /** Every cached entry is a stored pair: a cache hit agrees with the store. */
  predicate Coherent(st: State)
  {
    forall e | e in st.cache :: e.key in st.db && st.db[e.key] == e.value
  }

  // ---------------------------------------------------------------------
  // SetKeyValue

  /** The message SetKeyValue sends with each status it answers. */
  function SetMessage(status: int): string
  {
    if status == StatusBadRequest then "Either key or value missing"
    else if status == StatusCreated then "Key-value pair successfully created"
    else if status == StatusConflict then "Key-value pair already present"
    else "Database error"
  }

  /**
    SetKeyValue as the code has it: a missing key or value is a bad request; a
    key the store does not have is created, put in the cache and reported
    created, whatever Create reported; a stored key is a conflict; any other
    lookup error is a database error.
   */
  function SetStep(st: State, key: string, value: string, f: Faults): (r: (Response, State))
    ensures r.0.statusCode == StatusCreated <==> key != "" && value != "" && !f.lookup && key !in st.db
    ensures r.0.statusCode == StatusCreated ==> r.1.cache == LruSpec.Put(st.cache, Capacity, key, value)
    ensures r.0.statusCode == StatusCreated ==> r.1.db == if f.write then st.db else st.db[key := value]
    ensures r.0.statusCode != StatusCreated ==> r.1 == st
    ensures r.0.statusCode == StatusConflict <==> key != "" && value != "" && !f.lookup && key in st.db
    ensures r.0.statusCode == StatusBadRequest <==> key == "" || value == ""
    ensures r.0.statusCode == StatusInternalServerError <==> key != "" && value != "" && f.lookup
    ensures r.0.message == SetMessage(r.0.statusCode)
  {
    if key == "" || value == "" then
      (Response("Either key or value missing", StatusBadRequest), st)
    else
      match First(st.db, key, f.lookup)
      case RecordNotFound =>
        // The error Create reports is not looked at.
        var (db', _) := Create(st.db, key, value, f.write);
        (Response("Key-value pair successfully created", StatusCreated), State(db', LruSpec.Put(st.cache, Capacity, key, value)))
      case Found(_) =>
        (Response("Key-value pair already present", StatusConflict), st)
      case DbError =>
        (Response("Database error", StatusInternalServerError), st)
  }

  /**
    SetKeyValue with Create's error checked: a failed Create is reported as a
    database error and the cache is left alone. Otherwise as SetStep.
   */
  function SetStepChecked(st: State, key: string, value: string, f: Faults): (r: (Response, State))
    ensures r.0.statusCode == StatusCreated <==> key != "" && value != "" && !f.lookup && !f.write && key !in st.db
    ensures r.0.statusCode == StatusCreated ==> r.1 == State(st.db[key := value], LruSpec.Put(st.cache, Capacity, key, value))
    ensures r.0.statusCode != StatusCreated ==> r.1 == st
    ensures r.0.statusCode == StatusConflict <==> key != "" && value != "" && !f.lookup && key in st.db
    ensures r.0.statusCode == StatusBadRequest <==> key == "" || value == ""
    ensures r.0.statusCode == StatusInternalServerError <==> key != "" && value != "" && (f.lookup || (key !in st.db && f.write))
    ensures r.0.message == SetMessage(r.0.statusCode)
  {
    if key == "" || value == "" then
      (Response("Either key or value missing", StatusBadRequest), st)
    else
      match First(st.db, key, f.lookup)
      case RecordNotFound =>
        var (db', failed) := Create(st.db, key, value, f.write);
        if failed then (Response("Database error", StatusInternalServerError), st)
        else (Response("Key-value pair successfully created", StatusCreated), State(db', LruSpec.Put(st.cache, Capacity, key, value)))
      case Found(_) =>
        (Response("Key-value pair already present", StatusConflict), st)
      case DbError =>
        (Response("Database error", StatusInternalServerError), st)
  }

  /** A created pair is in the store and in the cache, and the cache stays coherent with the store. */
  lemma SetCreatesCoherently(st: State, key: string, value: string, f: Faults)
    requires Coherent(st)
    ensures var (r, st') := SetStepChecked(st, key, value, f);
      && Coherent(st')
      && (r.statusCode == StatusCreated ==> st'.db[key] == value && LruSpec.Get(st'.cache, key) == (value, true))
  {
    var (r, st') := SetStepChecked(st, key, value, f);
    if r.statusCode == StatusCreated {
      LruSpec.PutFrom(st.cache, Capacity, key, value);
      LruSpec.PutThenGet(st.cache, Capacity, key, value);
      forall e | e in st'.cache ensures e.key in st'.db && st'.db[e.key] == e.value {
        if e != LruSpec.Entry(key, value) {
          assert e in st.cache && e.key != key;
        }
      }
    }
  }

  /** As the code has it, SetKeyValue keeps the cache coherent with the store when Create succeeds. */
  lemma SetKeepsCoherenceWhenCreateSucceeds(st: State, key: string, value: string, f: Faults)
    requires Coherent(st) && !f.write
    ensures Coherent(SetStep(st, key, value, f).1)
    ensures SetStep(st, key, value, f) == SetStepChecked(st, key, value, f)
  {
    SetCreatesCoherently(st, key, value, f);
  }

  /**
    As the code has it, a failed Create still answers 201 and still caches the
    pair: from an empty store and cache, the cache then holds a pair the store
    does not.
   */
  lemma SetCachesWhatCreateRejected()
    ensures var (r, st') := SetStep(State(map[], []), "k", "v", Faults(false, true));
      && Coherent(State(map[], []))
      && r == Response("Key-value pair successfully created", StatusCreated)
      && st'.db == map[]
      && LruSpec.Get(st'.cache, "k") == ("v", true)
      && !Coherent(st')
  {
    var (r, st') := SetStep(State(map[], []), "k", "v", Faults(false, true));
    LruSpec.PutThenGet([], Capacity, "k", "v");
    assert LruSpec.Entry("k", "v") in st'.cache;
  }

  /** A second SetKeyValue on a key that was just created is a conflict and changes nothing; there is no update in place. */
  lemma SetTwiceConflicts(st: State, key: string, value: string, value2: string, f: Faults)
    requires SetStepChecked(st, key, value, f).0.statusCode == StatusCreated && value2 != ""
    ensures var st' := SetStepChecked(st, key, value, f).1;
      && SetStepChecked(st', key, value2, Faults(false, f.write)) == (Response("Key-value pair already present", StatusConflict), st')
      && SetStep(st', key, value2, Faults(false, f.write)) == (Response("Key-value pair already present", StatusConflict), st')
  {
  }

  // ---------------------------------------------------------------------
  // DeleteKeyValue

  /**
    DeleteKeyValue: a missing key is a bad request; a key the store does not
    have is not found; a lookup error or a failed Delete is a database error and
    leaves the cache alone; a successful Delete is followed by DeleteKey on the cache.
   */
  function DeleteStep(st: State, key: string, f: Faults): (r: (Response, State))
    ensures r.0.statusCode == StatusOK <==> key != "" && !f.lookup && key in st.db && !f.write
    ensures r.0.statusCode == StatusOK ==> r.1 == State(st.db - {key}, LruSpec.Delete(st.cache, key))
    ensures r.0.statusCode != StatusOK ==> r.1 == st
    ensures r.0.statusCode == StatusNotFound <==> key != "" && !f.lookup && key !in st.db
    ensures r.0.statusCode == StatusBadRequest <==> key == ""
    ensures r.0.statusCode == StatusInternalServerError <==> key != "" && (f.lookup || (key in st.db && f.write))
    ensures r.0.message == match r.0.statusCode
      case 400 => "Key missing in delete request"
      case 404 => "Key not found"
      case 200 => "Key-value pair successfully deleted"
      case _ => if f.lookup then "Database error" else "Failed to delete key-value pair"
  {
    if key == "" then
      (Response("Key missing in delete request", StatusBadRequest), st)
    else
      match First(st.db, key, f.lookup)
      case RecordNotFound =>
        (Response("Key not found", StatusNotFound), st)
      case DbError =>
        (Response("Database error", StatusInternalServerError), st)
      case Found(_) =>
        var (db', failed) := Delete(st.db, key, f.write);
        if failed then (Response("Failed to delete key-value pair", StatusInternalServerError), st)
        else (Response("Key-value pair successfully deleted", StatusOK), State(db', LruSpec.Delete(st.cache, key)))
  }

  /** A deleted key is gone from the store and from the cache, and the cache stays coherent with the store. */
  lemma DeleteCoherently(st: State, key: string, f: Faults)
    requires Coherent(st)
    ensures var (r, st') := DeleteStep(st, key, f);
      && Coherent(st')
      && (r.statusCode == StatusOK ==> key !in st'.db && LruSpec.Get(st'.cache, key) == ("", false))
  {
    var (r, st') := DeleteStep(st, key, f);
    if r.statusCode == StatusOK {
      LruSpec.RemoveFrom(st.cache, key);
      LruSpec.DeleteThenGet(st.cache, key);
      forall e | e in st'.cache ensures e.key in st'.db && st'.db[e.key] == e.value {
        assert e in st.cache && e.key != key;
      }
    }
  }

  // ---------------------------------------------------------------------
  // GetKeyValue

  /**
    GetKeyValue: a function of the store alone; the cache is not consulted and
    the key is not validated. Any lookup error, not-found included, is reported
    as not found.
   */
  function GetKeyValue(db: Db, key: string, lookupFails: bool): (r: GetResponse)
    ensures r.statusCode == StatusOK <==> !lookupFails && key in db
    ensures r.statusCode == StatusOK ==> r == GetResponse("Key found", StatusOK, db[key])
    ensures r.statusCode != StatusOK ==> r == GetResponse("Key not found", StatusNotFound, "")
  {
    match First(db, key, lookupFails)
    case Found(v) => GetResponse("Key found", StatusOK, v)
    case _ => GetResponse("Key not found", StatusNotFound, "")
  }

  /** A pair just created is found, with its value. */
  lemma SetThenGetKeyValue(st: State, key: string, value: string, f: Faults)
    requires SetStepChecked(st, key, value, f).0.statusCode == StatusCreated
    ensures GetKeyValue(SetStepChecked(st, key, value, f).1.db, key, false) == GetResponse("Key found", StatusOK, value)
  {
  }

  /** As the code has it, a 201 is followed by a successful lookup only when Create did not fail. */
  lemma SetThenGetKeyValueAsWritten(st: State, key: string, value: string, f: Faults)
    requires SetStep(st, key, value, f).0.statusCode == StatusCreated && !f.write
    ensures GetKeyValue(SetStep(st, key, value, f).1.db, key, false) == GetResponse("Key found", StatusOK, value)
  {
  }

  /** As the code has it, a 201 whose Create failed is followed by a lookup that does not find the key. */
  lemma SetThenGetKeyValueCreateFailed(st: State, key: string, value: string, f: Faults)
    requires SetStep(st, key, value, f).0.statusCode == StatusCreated && f.write
    ensures GetKeyValue(SetStep(st, key, value, f).1.db, key, false) == GetResponse("Key not found", StatusNotFound, "")
  {
  }

  /** A key just deleted is not found. */
  lemma DeleteThenGetKeyValue(st: State, key: string, f: Faults)
    requires DeleteStep(st, key, f).0.statusCode == StatusOK
    ensures GetKeyValue(DeleteStep(st, key, f).1.db, key, false) == GetResponse("Key not found", StatusNotFound, "")
  {
  }

  /** With the cache coherent, a cache hit gives the value GetKeyValue reads from the store. */
  lemma CacheHitAgreesWithStore(st: State, key: string)
    requires Coherent(st) && LruSpec.Get(st.cache, key).1
    ensures GetKeyValue(st.db, key, false) == GetResponse("Key found", StatusOK, LruSpec.Get(st.cache, key).0)
  {
    LruSpec.LookupIn(st.cache, key);
  }

  /** The handlers keep the cache within its bound and its keys unique. */
  lemma HandlersKeepCacheInv(st: State, key: string, value: string, f: Faults)
    requires LruSpec.Inv(st.cache, Capacity)
    ensures LruSpec.Inv(SetStep(st, key, value, f).1.cache, Capacity)
    ensures LruSpec.Inv(SetStepChecked(st, key, value, f).1.cache, Capacity)
    ensures LruSpec.Inv(DeleteStep(st, key, f).1.cache, Capacity)
  {
    LruSpec.PutInv(st.cache, Capacity, key, value);
    LruSpec.DeleteInv(st.cache, Capacity, key);
  }

  // ---------------------------------------------------------------------

  /** The service: the store behind kvDbConnector and the global cache. */
  class KvService {
    var db: Db
    const cache: Cache.LRUCache

    ghost predicate Valid()
      reads this, cache, cache.Repr
    {
      cache.Valid() && this !in cache.Repr && cache.capacity == Capacity
    }

    ghost function Snapshot(): State
      reads this, cache, cache.list
    {
      State(db, cache.Contents())
    }

    /** startServer: the cache is built empty with capacity 200; the store holds what the database holds. */
    constructor (initial: Db)
      ensures Valid() && db == initial && cache.Contents() == [] && fresh(cache.Repr)
    {
      db := initial;
      cache := new Cache.LRUCache(Capacity);
    }

    /** SetKeyValue as the code has it. */
    method SetKeyValue(key: string, value: string, f: Faults) returns (r: Response)
      requires Valid()
      modifies this, cache.Repr
      ensures Valid() && fresh(cache.Repr - old(cache.Repr))
      ensures (r, Snapshot()) == SetStep(old(Snapshot()), key, value, f)
    {
      if key == "" || value == "" {
        return Response("Either key or value missing", StatusBadRequest);
      }
      var found := First(db, key, f.lookup);
      if found == RecordNotFound {
        var (db', _) := Create(db, key, value, f.write);
        db := db';
        cache.Put(key, value);
        return Response("Key-value pair successfully created", StatusCreated);
      } else if found.Found? {
        return Response("Key-value pair already present", StatusConflict);
      } else {
        return Response("Database error", StatusInternalServerError);
      }
    }

    /** SetKeyValue with Create's error checked before the cache is populated. */
    method SetKeyValueChecked(key: string, value: string, f: Faults) returns (r: Response)
      requires Valid()
      modifies this, cache.Repr
      ensures Valid() && fresh(cache.Repr - old(cache.Repr))
      ensures (r, Snapshot()) == SetStepChecked(old(Snapshot()), key, value, f)
    {
      if key == "" || value == "" {
        return Response("Either key or value missing", StatusBadRequest);
      }
      var found := First(db, key, f.lookup);
      if found == RecordNotFound {
        var (db', failed) := Create(db, key, value, f.write);
        if failed {
          return Response("Database error", StatusInternalServerError);
        }
        db := db';
        cache.Put(key, value);
        return Response("Key-value pair successfully created", StatusCreated);
      } else if found.Found? {
        return Response("Key-value pair already present", StatusConflict);
      } else {
        return Response("Database error", StatusInternalServerError);
      }
    }

    /** DeleteKeyValue: the store first, then the cache, with an early return at each failure. */
    method DeleteKeyValue(key: string, f: Faults) returns (r: Response)
      requires Valid()
      modifies this, cache.Repr
      ensures Valid() && fresh(cache.Repr - old(cache.Repr))
      ensures (r, Snapshot()) == DeleteStep(old(Snapshot()), key, f)
    {
      if key == "" {
        return Response("Key missing in delete request", StatusBadRequest);
      }
      var found := First(db, key, f.lookup);
      if found == RecordNotFound {
        return Response("Key not found", StatusNotFound);
      } else if found == DbError {
        return Response("Database error", StatusInternalServerError);
      }
      var (db', failed) := Delete(db, key, f.write);
      if failed {
        return Response("Failed to delete key-value pair", StatusInternalServerError);
      }
      db := db';
      cache.DeleteKey(key);
      return Response("Key-value pair successfully deleted", StatusOK);
    }
  }
}
