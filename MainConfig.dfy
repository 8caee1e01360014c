/** The thread-safe configuration store of src/main/java/Utils/ConfigReaderWriter.java:
    a static Properties table loaded from config.properties by the class
    initialiser, updated and stored back by setPropKey, with plain,
    encrypted and `testdata.`-prefixed access. The lock only serialises
    calls; every call here runs alone. AES is a pair of function parameters
    whose `None` stands for a thrown exception. */
module MainConfig {
  import opened JavaStrings
  import opened Results
  import opened PropertyFiles

  /** The key prefix of the test-data helpers. */
  const TestDataPrefix: string := "testdata."

  /** The key a test-data helper uses for `key`. */
  function TestDataKey(key: string): (k: string)
    ensures StartsWith(k, TestDataPrefix)
    ensures |k| == |TestDataPrefix| + |key| && k[|TestDataPrefix|..] == key
  {
    TestDataPrefix + key
  }

  /** Different keys get different test-data keys, and no test-data key is a
      key without the prefix (such as `db.url`). */
  lemma TestDataKeysSeparate(a: string, b: string, plain: string)
    requires !StartsWith(plain, TestDataPrefix)
    ensures TestDataKey(a) == TestDataKey(b) ==> a == b
    ensures TestDataKey(a) != plain
  {
    if TestDataKey(a) == TestDataKey(b) {
      assert a == TestDataKey(a)[|TestDataPrefix|..];
    }
  }

  /** getDecryptedPropKey over a table: decrypting the stored text, where an
      absent key (a null handed to the decryptor) and any decryption error
      become "Failed to decrypt property: <key>". */
  function Decrypted(properties: map<string, string>, key: string, secretKey: string,
                     decrypt: (string, string) -> Option<string>): (r: Result<string, string>)
    ensures r.Failure? ==> r.error == "Failed to decrypt property: " + key
    ensures r.Success? <==> key in properties && decrypt(properties[key], secretKey).Some?
    ensures r.Success? ==> r.value == decrypt(properties[key], secretKey).value
  {
    match GetProperty(properties, key)
    case None => Failure("Failed to decrypt property: " + key)
    case Some(encrypted) =>
      match decrypt(encrypted, secretKey)
      case None => Failure("Failed to decrypt property: " + key)
      case Some(plain) => Success(plain)
  }

  class ConfigReaderWriter {
    /** The in-memory table. */
    var properties: map<string, string>
    /** src/test/resources/config.properties. */
    var file: PropertyFile

    constructor(configFile: PropertyFile)
      requires Loaded(configFile).Some?
      ensures properties == Loaded(configFile).value && file == configFile
    {
      properties := Loaded(configFile).value;
      file := configFile;
    }

    /** getPropKey: the stored value, or null. */
    function GetPropKey(key: string): (r: Option<string>)
      reads this
      ensures r.Some? <==> key in properties
      ensures r.Some? ==> r.value == properties[key]
    {
      GetProperty(properties, key)
    }

    /** getDecryptedPropKey. */
    function GetDecryptedPropKey(key: string, secretKey: string, decrypt: (string, string) -> Option<string>): (r: Result<string, string>)
      reads this
      ensures r == Decrypted(properties, key, secretKey, decrypt)
    {
      Decrypted(properties, key, secretKey, decrypt)
    }

    /** setPropKey: the output stream is opened first; when that fails the
        table is left as it was. Otherwise the key is set and the table
        stored; a failed write leaves the new value in memory and the file
        damaged. Both failures raise "Failed to update config.properties". */
    method SetPropKey(key: string, value: string, fault: WriteFault) returns (outcome: Outcome<string>)
      modifies this
      ensures fault == OpenFails ==> properties == old(properties) && file == old(file)
      ensures fault != OpenFails ==> properties == old(properties)[key := value] &&
                                     file == AfterStore(old(file), properties, fault)
      ensures outcome == (if fault == NoFault then Done else Thrown("Failed to update config.properties"))
    {
      if fault == OpenFails {
        return Thrown("Failed to update config.properties");
      }
      properties := properties[key := value];
      file := AfterStore(file, properties, fault);
      outcome := if fault == NoFault then Done else Thrown("Failed to update config.properties");
    }

    /** setEncryptedPropKey: stores the encrypted value; any failure, of the
        encryption or of the store, is reported as
        "Failed to encrypt property: <key>". */
    method SetEncryptedPropKey(key: string, value: string, secretKey: string,
                               encrypt: (string, string) -> Option<string>, fault: WriteFault)
        returns (outcome: Outcome<string>)
      modifies this
      ensures encrypt(value, secretKey).None? ==> properties == old(properties) && file == old(file)
      ensures encrypt(value, secretKey).Some? && fault == OpenFails ==> properties == old(properties) && file == old(file)
      ensures encrypt(value, secretKey).Some? && fault != OpenFails ==>
                properties == old(properties)[key := encrypt(value, secretKey).value] &&
                file == AfterStore(old(file), properties, fault)
      ensures outcome.Done? <==> encrypt(value, secretKey).Some? && fault == NoFault
      ensures outcome.Thrown? ==> outcome.error == "Failed to encrypt property: " + key
    {
      var encrypted := encrypt(value, secretKey);
      if encrypted.None? {
        return Thrown("Failed to encrypt property: " + key);
      }
      var stored := SetPropKey(key, encrypted.value, fault);
      outcome := if stored.Done? then Done else Thrown("Failed to encrypt property: " + key);
    }

    /** saveTestData: setPropKey under the prefixed key. */
    method SaveTestData(key: string, value: string, fault: WriteFault) returns (outcome: Outcome<string>)
      modifies this
      ensures fault == OpenFails ==> properties == old(properties) && file == old(file)
      ensures fault != OpenFails ==> properties == old(properties)[TestDataKey(key) := value] &&
                                     file == AfterStore(old(file), properties, fault)
      ensures outcome == (if fault == NoFault then Done else Thrown("Failed to update config.properties"))
    {
      outcome := SetPropKey(TestDataKey(key), value, fault);
    }

    /** getTestData: getPropKey under the prefixed key. */
    function GetTestData(key: string): (r: Option<string>)
      reads this
      ensures r.Some? <==> TestDataKey(key) in properties
      ensures r.Some? ==> r.value == properties[TestDataKey(key)]
    {
      GetPropKey(TestDataKey(key))
    }

    /** clearTestData: the prefixed key is kept, with the empty value. */
    method ClearTestData(key: string, fault: WriteFault) returns (outcome: Outcome<string>)
      modifies this
      ensures fault == OpenFails ==> properties == old(properties) && file == old(file)
      ensures fault != OpenFails ==> properties == old(properties)[TestDataKey(key) := ""] &&
                                     file == AfterStore(old(file), properties, fault)
      ensures outcome == (if fault == NoFault then Done else Thrown("Failed to update config.properties"))
    {
      outcome := SetPropKey(TestDataKey(key), "", fault);
    }
  }

  /** The configuration as the class initialiser leaves it: whatever a file
      that opens loads (the surviving lines of a cut-short file included),
      or "Failed to load config.properties" when the file is missing or
      unreadable. */
  method Initialize(configFile: PropertyFile) returns (r: Result<ConfigReaderWriter, string>)
    ensures r.Failure? <==> Loaded(configFile).None?
    ensures r.Failure? ==> r.error == "Failed to load config.properties"
    ensures r.Success? ==> fresh(r.value) && r.value.properties == Loaded(configFile).value && r.value.file == configFile
  {
    if Loaded(configFile).None? {
      return Failure("Failed to load config.properties");
    }
    var config := new ConfigReaderWriter(configFile);
    r := Success(config);
  }

  /** saveTestData then getTestData returns the value whenever the stream
      could be opened; clearTestData then getTestData returns "" (the key is
      kept, not removed); a key without the prefix is never touched. */
  method TestDataRoundTrip(config: ConfigReaderWriter, key: string, value: string, plain: string, fault: WriteFault)
      returns (saved: Option<string>, cleared: Option<string>, plainBefore: Option<string>, plainAfter: Option<string>)
    requires fault != OpenFails
    requires !StartsWith(plain, TestDataPrefix)
    modifies config
    ensures saved == Some(value)
    ensures cleared == Some("")
    ensures plainAfter == plainBefore
  {
    plainBefore := config.GetPropKey(plain);
    TestDataKeysSeparate(key, key, plain);
    var o1 := config.SaveTestData(key, value, fault);
    saved := config.GetTestData(key);
    var o2 := config.ClearTestData(key, fault);
    cleared := config.GetTestData(key);
    plainAfter := config.GetPropKey(plain);
  }

  /** An encrypted store read back with a decryptor that inverts the
      encryptor yields the original value. */
  method EncryptedRoundTrip(config: ConfigReaderWriter, key: string, value: string, secretKey: string,
                            encrypt: (string, string) -> Option<string>, decrypt: (string, string) -> Option<string>)
      returns (read: Result<string, string>)
    requires encrypt(value, secretKey).Some? && decrypt(encrypt(value, secretKey).value, secretKey) == Some(value)
    modifies config
    ensures read == Success(value)
  {
    var outcome := config.SetEncryptedPropKey(key, value, secretKey, encrypt, NoFault);
    read := config.GetDecryptedPropKey(key, secretKey, decrypt);
  }
}
