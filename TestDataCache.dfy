/** The cross-test value cache of Utils/TestDataCache.java: a static
    Properties table loaded once from target/test-data-cache.properties and
    written back after every save. The static state is one object here. */
module TestDataCache {
  import opened Results
  import opened PropertyFiles

  class TestDataCache {
    /** The in-memory table. */
    var properties: map<string, string>
    /** target/test-data-cache.properties. */
    var file: PropertyFile

    /** loadProperties, run by the static initialiser: whatever the file
        loads when it exists and opens (the surviving lines of a cut-short
        file included), otherwise (absent, or an error that is only printed)
        an empty table. */
    constructor(cacheFile: PropertyFile)
      ensures file == cacheFile
      ensures Loaded(cacheFile).Some? ==> properties == Loaded(cacheFile).value
      ensures Loaded(cacheFile).None? ==> properties == map[]
    {
      file := cacheFile;
      properties := match Loaded(cacheFile) case Some(entries) => entries case None => map[];
    }

    /** save(key, value): a null key or value is refused and nothing changes;
        otherwise the table is updated first and then stored, and a failed
        store is only printed, so the call still returns normally. */
    method Save(key: Option<string>, value: Option<string>, fault: WriteFault) returns (outcome: Outcome<string>)
      modifies this
      ensures key.None? || value.None? ==>
                outcome == Thrown("Key and value cannot be null") &&
                properties == old(properties) && file == old(file)
      ensures key.Some? && value.Some? ==>
                outcome == Done &&
                properties == old(properties)[key.value := value.value] &&
                file == AfterStore(old(file), properties, fault)
    {
      if key.None? || value.None? {
        return Thrown("Key and value cannot be null");
      }
      properties := properties[key.value := value.value];
      file := AfterStore(file, properties, fault);
      outcome := Done;
    }

    /** get(key): a null key is refused; otherwise the stored value, or null. */
    function Get(key: Option<string>): (r: Result<Option<string>, string>)
      reads this
      ensures key.None? <==> r == Failure("Key cannot be null")
      ensures key.Some? ==> r == Success(GetProperty(properties, key.value))
    {
      if key.None? then Failure("Key cannot be null") else Success(GetProperty(properties, key.value))
    }
  }

  /** save followed by get: the saved value comes back whatever the store
      did, every other key is unchanged, and empty strings are accepted. */
  method SaveThenGet(cache: TestDataCache, key: string, value: string, other: string, fault: WriteFault)
      returns (got: Result<Option<string>, string>, otherBefore: Result<Option<string>, string>,
               otherAfter: Result<Option<string>, string>)
    modifies cache
    ensures got == Success(Some(value))
    ensures other != key ==> otherAfter == otherBefore
  {
    otherBefore := cache.Get(Some(other));
    var outcome := cache.Save(Some(key), Some(value), fault);
    got := cache.Get(Some(key));
    otherAfter := cache.Get(Some(other));
  }

  /** A cache rebuilt from the file after a successful save sees the same table. */
  method SaveThenReload(cache: TestDataCache, key: string, value: string) returns (reloaded: TestDataCache)
    modifies cache
    ensures reloaded.properties == cache.properties
    ensures reloaded.Get(Some(key)) == Success(Some(value))
  {
    var outcome := cache.Save(Some(key), Some(value), NoFault);
    reloaded := new TestDataCache(cache.file);
  }
}
