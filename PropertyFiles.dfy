/** A java.util.Properties table as the stores of package Utils use it: a
    string-to-string map, read with getProperty and written with setProperty,
    and the properties file behind it. File-system failures are inputs. */
module PropertyFiles {
  import opened Results

  /** Properties.getProperty: the value stored under `key`, or null. */
  function GetProperty(properties: map<string, string>, key: string): (r: Option<string>)
    ensures r.Some? <==> key in properties
    ensures r.Some? ==> r.value == properties[key]
  {
    if key in properties then Some(properties[key]) else None
  }

  /** Properties.setProperty changes the given key and no other. */
  lemma SetPropertyOnlyChangesKey(properties: map<string, string>, key: string, value: string, other: string)
    ensures GetProperty(properties[key := value], key) == Some(value)
    ensures other != key ==> GetProperty(properties[key := value], other) == GetProperty(properties, other)
  {
  }

  /** The state of a properties file on disk. `Damaged` is what a store
      that failed after opening (and so truncating) the file leaves behind:
      the lines written before the failure, which still parse to `survivors`. */
  datatype PropertyFile = Missing | Unreadable | Stored(entries: map<string, string>) | Damaged(survivors: map<string, string>)

  /** How a store attempt ends: it succeeds, the output stream cannot be
      opened, or writing fails after the stream was opened, leaving a file
      whose lines parse to `survivors`. */
  datatype WriteFault = NoFault | OpenFails | WriteFails(survivors: map<string, string>)

  /** Properties.store through a fresh FileOutputStream: the file holds the
      entries, is untouched when it could not be opened, and is cut short
      when writing failed. */
  function AfterStore(file: PropertyFile, entries: map<string, string>, fault: WriteFault): (f: PropertyFile)
    ensures fault == NoFault ==> f == Stored(entries)
    ensures fault == OpenFails ==> f == file
    ensures fault.WriteFails? ==> f == Damaged(fault.survivors)
  {
    match fault
    case NoFault => Stored(entries)
    case OpenFails => file
    case WriteFails(survivors) => Damaged(survivors)
  }

  /** Properties.load of a file that opens: a complete file yields its
      entries and a cut-short one the lines that survived; a missing or
      unreadable file yields nothing. */
  function Loaded(file: PropertyFile): (entries: Option<map<string, string>>)
    ensures entries.Some? <==> file.Stored? || file.Damaged?
    ensures file.Stored? ==> entries == Some(file.entries)
    ensures file.Damaged? ==> entries == Some(file.survivors)
  {
    match file
    case Stored(e) => Some(e)
    case Damaged(survivors) => Some(survivors)
    case _ => None
  }

  /** A successful store is read back unchanged. */
  lemma StoreThenLoad(file: PropertyFile, entries: map<string, string>)
    ensures Loaded(AfterStore(file, entries, NoFault)) == Some(entries)
  {
  }
}
