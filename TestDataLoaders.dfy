/** Test-case lookup in a JSON data file: the first entry whose name equals
    the request up to case. Reading and parsing the file is a lookup in a
    map from paths to already-parsed entry lists; a path that is missing
    from it stands for a file that cannot be opened or parsed. */
module TestDataLookup {
  import opened JavaStrings
  import opened Results

  /** One test case of a data file. */
  datatype TestData<T> = TestData(testCaseName: string, description: string, data: T)

  /** Why a lookup throws: the file could not be read, or no entry matched. */
  datatype LoadError = Unreadable(path: string) | NotFound(message: string)

  /** The parsed data files, by path. */
  type Files<T> = map<string, seq<TestData<T>>>

  /** stream().filter(name equalsIgnoreCase).findFirst().orElseThrow(...). */
  function FindTestCase<T>(all: seq<TestData<T>>, name: string): (r: Result<TestData<T>, LoadError>)
    ensures r.Success? <==> exists i :: 0 <= i < |all| && EqualsIgnoreCase(all[i].testCaseName, name)
    ensures r.Success? ==> exists i :: 0 <= i < |all| && all[i] == r.value &&
                                       EqualsIgnoreCase(all[i].testCaseName, name) &&
                                       forall j :: 0 <= j < i ==> !EqualsIgnoreCase(all[j].testCaseName, name)
    ensures r.Failure? ==> r.error == NotFound("Test case not found: " + name)
    decreases |all|
  {
    if |all| == 0 then Failure(NotFound("Test case not found: " + name))
    else if EqualsIgnoreCase(all[0].testCaseName, name) then Success(all[0])
    else
      var r := FindTestCase(all[1..], name);
      assert r.Success? ==> exists i :: 0 <= i < |all| && all[i] == r.value &&
                                        EqualsIgnoreCase(all[i].testCaseName, name) &&
                                        forall j :: 0 <= j < i ==> !EqualsIgnoreCase(all[j].testCaseName, name) by {
        if r.Success? {
          var i :| 0 <= i < |all[1..]| && all[1..][i] == r.value &&
                   EqualsIgnoreCase(all[1..][i].testCaseName, name) &&
                   forall j :: 0 <= j < i ==> !EqualsIgnoreCase(all[1..][j].testCaseName, name);
          assert all[i + 1] == r.value;
          forall j | 0 <= j < i + 1 ensures !EqualsIgnoreCase(all[j].testCaseName, name) {
            if j > 0 { assert all[j] == all[1..][j - 1]; }
          }
        }
      }
      r
  }

  /** The entry found answers to the requested name up to case, so a request
      differing only in case finds the same entry. */
  lemma FoundNameMatches<T>(all: seq<TestData<T>>, name: string, other: string)
    requires FindTestCase(all, name).Success?
    requires Lower(other) == Lower(name)
    ensures EqualsIgnoreCase(FindTestCase(all, name).value.testCaseName, name)
    ensures FindTestCase(all, other) == FindTestCase(all, name)
  {
    FindSameUnderCase(all, name, other);
  }

  /** The lookup depends on the requested name only through its lower-case form. */
  lemma {:induction false} FindSameUnderCase<T>(all: seq<TestData<T>>, name: string, other: string)
    requires Lower(other) == Lower(name)
    ensures FindTestCase(all, other).Success? == FindTestCase(all, name).Success?
    ensures FindTestCase(all, name).Success? ==> FindTestCase(all, other) == FindTestCase(all, name)
    decreases |all|
  {
    if |all| > 0 && !EqualsIgnoreCase(all[0].testCaseName, name) {
      FindSameUnderCase(all[1..], name, other);
    }
  }

  /** Utils TestDataLoader.loadTestCaseByName: read basePath + fileName
      afresh, then look the name up. */
  function LoadTestCaseByName<T>(files: Files<T>, basePath: string, fileName: string, name: string): (r: Result<TestData<T>, LoadError>)
    ensures basePath + fileName !in files ==> r == Failure(Unreadable(basePath + fileName))
    ensures basePath + fileName in files ==> r == FindTestCase(files[basePath + fileName], name)
  {
    var path := basePath + fileName;
    if path !in files then Failure(Unreadable(path)) else FindTestCase(files[path], name)
  }
}

/** Base TestDataLoader: the same lookup behind a load-once cache keyed by the
    plain concatenation basePath + fileName. The Java cache is a static map
    shared by every entity type; here one loader holds the lists of one type. */
module BaseTestDataLoader {
  import opened JavaStrings
  import opened Results
  import opened TestDataLookup

  class TestDataLoader<T> {
    /** The parsed lists, by cache key; entries are only ever added. */
    var cache: map<string, seq<TestData<T>>>

    constructor()
      ensures cache == map[]
    {
      cache := map[];
    }

    /** loadTestCaseByName: parse the file only on a cache miss, remember the
        list, then look the name up in the cached list. */
    method LoadTestCaseByName(files: Files<T>, basePath: string, fileName: string, name: string)
        returns (r: Result<TestData<T>, LoadError>)
      modifies this
      ensures var key := basePath + fileName;
              if key in old(cache) then
                cache == old(cache) && r == FindTestCase(old(cache)[key], name)
              else if key in files then
                cache == old(cache)[key := files[key]] && r == FindTestCase(files[key], name)
              else
                cache == old(cache) && r == Failure(Unreadable(key))
      ensures forall k :: k in old(cache) ==> k in cache && cache[k] == old(cache)[k]
      ensures (basePath + fileName in old(cache) ==>
                 basePath + fileName in files && old(cache)[basePath + fileName] == files[basePath + fileName]) ==>
              r == TestDataLookup.LoadTestCaseByName(files, basePath, fileName, name)
    {
      var key := basePath + fileName;
      if key !in cache {
        if key !in files {
          return Failure(Unreadable(key));
        }
        cache := cache[key := files[key]];
      }
      r := FindTestCase(cache[key], name);
    }
  }

  /** Once a key is cached, a later call under the same key answers from the
      cached list even when the file has changed since, and two splits of
      the same path share one entry. */
  method CachedListWins<T>(loader: TestDataLoader<T>, before: Files<T>, after: Files<T>,
                           basePath: string, fileName: string, otherBase: string, otherFile: string, name: string)
      returns (first: Result<TestData<T>, LoadError>, second: Result<TestData<T>, LoadError>)
    requires basePath + fileName in before
    requires otherBase + otherFile == basePath + fileName
    modifies loader
    ensures basePath + fileName !in old(loader.cache) ==> second == FindTestCase(before[basePath + fileName], name)
    ensures second == first
  {
    first := loader.LoadTestCaseByName(before, basePath, fileName, name);
    second := loader.LoadTestCaseByName(after, otherBase, otherFile, name);
  }
}
