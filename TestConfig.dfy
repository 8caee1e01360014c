/** The configuration store of src/test/java/Utils/ConfigReaderWriter.java: a
    static Properties table loaded from config.properties by the class
    initialiser, set in memory first and then stored back. */
module TestConfig {
  import opened Results
  import opened PropertyFiles

  class ConfigReaderWriter {
    /** The in-memory table. */
    var properties: map<string, string>
    /** src/test/resources/config.properties. */
    var file: PropertyFile

    constructor(configFile: PropertyFile)
      requires Loaded(configFile).Some?
      ensures properties == Loaded(configFile).value && file == configFile
    {
      properties := Loaded(configFile).value;
      file := configFile;
    }

    /** getPropKey: the stored value, or null. */
    function GetPropKey(key: string): (r: Option<string>)
      reads this
      ensures r.Some? <==> key in properties
      ensures r.Some? ==> r.value == properties[key]
    {
      GetProperty(properties, key)
    }

    /** setPropKey: the key is set before the store is attempted, so the new
        value stays in memory even when opening or writing the file fails,
        which raises "Failed to update config.properties". */
    method SetPropKey(key: string, value: string, fault: WriteFault) returns (outcome: Outcome<string>)
      modifies this
      ensures properties == old(properties)[key := value]
      ensures file == AfterStore(old(file), properties, fault)
      ensures outcome == (if fault == NoFault then Done else Thrown("Failed to update config.properties"))
    {
      properties := properties[key := value];
      file := AfterStore(file, properties, fault);
      outcome := if fault == NoFault then Done else Thrown("Failed to update config.properties");
    }
  }

  /** The class initialiser: a file that opens loads (a cut-short one
      yields its surviving lines); a missing or unreadable one makes the
      initialisation fail with "Failed to load config.properties: " and the
      I/O error's own message. */
  method Initialize(configFile: PropertyFile, ioMessage: string) returns (r: Result<ConfigReaderWriter, string>)
    ensures r.Failure? <==> Loaded(configFile).None?
    ensures r.Failure? ==> r.error == "Failed to load config.properties: " + ioMessage
    ensures r.Success? ==> fresh(r.value) && r.value.properties == Loaded(configFile).value && r.value.file == configFile
  {
    if Loaded(configFile).None? {
      return Failure("Failed to load config.properties: " + ioMessage);
    }
    var config := new ConfigReaderWriter(configFile);
    r := Success(config);
  }

  /** setPropKey then getPropKey returns the value, even when the store
      failed, and every other key reads as before. */
  method SetThenGet(config: ConfigReaderWriter, key: string, value: string, other: string, fault: WriteFault)
      returns (got: Option<string>, otherBefore: Option<string>, otherAfter: Option<string>)
    modifies config
    ensures got == Some(value)
    ensures other != key ==> otherAfter == otherBefore
  {
    otherBefore := config.GetPropKey(other);
    var outcome := config.SetPropKey(key, value, fault);
    got := config.GetPropKey(key);
    otherAfter := config.GetPropKey(other);
  }
}
