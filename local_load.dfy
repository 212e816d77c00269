/**
 The local part of `loadCatalogs`: which files of the catalog directory are
 loaded, under which name, what `loadCatalog` creates for each and what it
 stores in `catalogMap`. The directory listing and `loadProperties` are
 file-system reads; here each file comes with its name, whether it is a
 regular file, and its properties.
 */
module LocalLoad {
  import opened Strings
  import opened CatalogRecord
  import opened Lifecycle

  const ConnectorNameKey: string := "connector.name"

  /** A directory entry: its name, `isFile()`, and what `loadProperties` reads from it. */
  datatype CatalogFile = CatalogFile(fileName: string, isFile: bool, properties: map<string, string>)

  /** The filter of line 88: a regular file whose name ends with ".properties". */
  predicate IsCatalogFile(f: CatalogFile)
  {
    f.isFile && EndsWith(f.fileName, PropertiesSuffix)
  }

  /** `Files.getNameWithoutExtension(file.getName())`. */
  function CatalogName(f: CatalogFile): string
  {
    NameWithoutExtension(f.fileName)
  }

  /** The properties left after `properties.remove("connector.name")`. */
  function ConnectorProperties(f: CatalogFile): map<string, string>
  {
    f.properties - {ConnectorNameKey}
  }

  /** Whether `loadCatalogs` passes the file to `loadCatalog` and it is not disabled. */
  predicate Loaded(f: CatalogFile, disabled: set<string>)
  {
    IsCatalogFile(f) && CatalogName(f) !in disabled
  }

  /** A loaded file whose connector kind is "mysql": its line goes into `catalogMap`. */
  predicate Tracked(f: CatalogFile, disabled: set<string>)
  {
    Loaded(f, disabled) && ConnectorNameKey in f.properties && f.properties[ConnectorNameKey] == MysqlConnector
  }

  /** The `createConnection` of line 229. */
  function LoadCall(f: CatalogFile): Call
    requires ConnectorNameKey in f.properties
  {
    Create(CatalogName(f), f.properties[ConnectorNameKey], ConnectorProperties(f))
  }

  /** The creates issued while loading `files` in order (a file without
      `connector.name` issues none: it fails before its create). */
  function LoadCalls(files: seq<CatalogFile>, disabled: set<string>): seq<Call>
  {
    if files == [] then []
    else
      var f := files[|files| - 1];
      LoadCalls(files[..|files| - 1], disabled)
        + (if Loaded(f, disabled) && ConnectorNameKey in f.properties then [LoadCall(f)] else [])
  }

  /** `catalogMap` after loading `files` in order, starting from `m`. */
  function LoadRecords(m: map<string, string>, files: seq<CatalogFile>, disabled: set<string>): map<string, string>
  {
    if files == [] then m
    else
      var f := files[|files| - 1];
      var before := LoadRecords(m, files[..|files| - 1], disabled);
      if Tracked(f, disabled) then before[CatalogName(f) := LocalLine(CatalogName(f), ConnectorProperties(f))]
      else before
  }

  /** A disabled catalog is never created, and every call is a create. */
  lemma {:induction false} LoadCallsSkipDisabled(files: seq<CatalogFile>, disabled: set<string>)
    ensures forall c :: c in LoadCalls(files, disabled) ==> c.Create? && c.name !in disabled
  {
    if files != [] {
      LoadCallsSkipDisabled(files[..|files| - 1], disabled);
    }
  }

  /** Each loaded file with a connector kind gets its create, kind and
      remaining properties as read from the file. */
  lemma {:induction false} LoadCallsCreateEach(files: seq<CatalogFile>, disabled: set<string>, i: nat)
    requires i < |files| && Loaded(files[i], disabled) && ConnectorNameKey in files[i].properties
    ensures LoadCall(files[i]) in LoadCalls(files, disabled)
  {
    var k := |files| - 1;
    if i < k {
      LoadCallsCreateEach(files[..k], disabled, i);
    }
  }

  /** Every create comes from a regular, not disabled `.properties` file that
      names its connector: no other entry of the directory is created. */
  lemma {:induction false} LoadCallsFromFiles(files: seq<CatalogFile>, disabled: set<string>, c: Call)
    requires c in LoadCalls(files, disabled)
    ensures exists i :: 0 <= i < |files| && Loaded(files[i], disabled)
              && ConnectorNameKey in files[i].properties && c == LoadCall(files[i])
  {
    var k := |files| - 1;
    var f := files[k];
    if c in LoadCalls(files[..k], disabled) {
      LoadCallsFromFiles(files[..k], disabled, c);
      var i :| 0 <= i < k && Loaded(files[..k][i], disabled)
                && ConnectorNameKey in files[..k][i].properties && c == LoadCall(files[..k][i]);
      assert files[..k][i] == files[i];
    } else {
      assert Loaded(f, disabled) && ConnectorNameKey in f.properties && c == LoadCall(f);
    }
  }

  /** `catalogMap` gains exactly the names of the mysql catalogs loaded; no
      other entry changes. */
  lemma {:induction false} LoadRecordsKeys(m: map<string, string>, files: seq<CatalogFile>, disabled: set<string>)
    ensures forall k :: k in LoadRecords(m, files, disabled) <==>
      k in m || exists i :: 0 <= i < |files| && Tracked(files[i], disabled) && CatalogName(files[i]) == k
    ensures forall k ::
              (k in m && forall i :: 0 <= i < |files| && Tracked(files[i], disabled) ==> CatalogName(files[i]) != k)
              ==> LoadRecords(m, files, disabled)[k] == m[k]
  {
    if files != [] {
      var k := |files| - 1;
      LoadRecordsKeys(m, files[..k], disabled);
      assert forall i :: 0 <= i < k ==> files[..k][i] == files[i];
    }
  }

  /** In a directory file names are unique, so a loaded mysql catalog is stored
      under its base name with the line built from its own properties. */
  lemma {:induction false} LoadRecordsStoresMysql(m: map<string, string>, files: seq<CatalogFile>, disabled: set<string>, i: nat)
    requires i < |files| && Tracked(files[i], disabled)
    requires forall a, b :: 0 <= a < b < |files| ==> files[a].fileName != files[b].fileName
    ensures CatalogName(files[i]) in LoadRecords(m, files, disabled)
    ensures LoadRecords(m, files, disabled)[CatalogName(files[i])]
         == LocalLine(CatalogName(files[i]), ConnectorProperties(files[i]))
  {
    var k := |files| - 1;
    if i < k {
      LoadRecordsStoresMysql(m, files[..k], disabled, i);
      if Tracked(files[k], disabled) {
        BaseNameOfPropertiesFile(files[i].fileName);
        BaseNameOfPropertiesFile(files[k].fileName);
        assert CatalogName(files[k]) != CatalogName(files[i]);
      }
    }
  }

  /** A name without a field separator keeps the key invariant: the stored line's
      first field is the key. */
  lemma {:induction false} LoadRecordsKeysMatch(m: map<string, string>, files: seq<CatalogFile>, disabled: set<string>)
    requires KeysMatch(m)
    requires forall i :: 0 <= i < |files| && Tracked(files[i], disabled) ==>
      FieldSep !in CatalogName(files[i]) && CatalogName(files[i]) != ""
    ensures KeysMatch(LoadRecords(m, files, disabled))
  {
    if files != [] {
      var k := |files| - 1;
      LoadRecordsKeysMatch(m, files[..k], disabled);
      var f := files[k];
      if Tracked(f, disabled) {
        var p := ConnectorProperties(f);
        NameOfEncode(CatalogName(f), JavaGet(p, UrlKey), JavaGet(p, UserKey), JavaGet(p, PasswordKey));
      }
    }
  }
}
