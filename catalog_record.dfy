/**
 The canonical catalog line: the record that `loadCatalog` builds for a local
 mysql catalog, that the remote listing carries one per record, and that the
 tick compares byte for byte. Fields are separated by `f_split` (U+0002),
 records of a listing by `c_split` (U+0001).
 */
module CatalogRecord {
  import opened Options
  import opened Strings

  const RecordSep: char := '\U{1}'
  const FieldSep: char := '\U{2}'

  /** The connector kind `addCatalog` creates and `loadCatalog` stores. */
  const MysqlConnector: string := "mysql"
  const UrlKey: string := "connection-url"
  const UserKey: string := "connection-user"
  const PasswordKey: string := "connection-password"

  /** The four fields `addCatalog` reads from a line. */
  datatype Connection = Connection(name: string, url: string, user: string, password: string)

  /** `name f url f user f password`, as the StringBuilder in `loadCatalog` appends it. */
  function Encode(name: string, url: string, user: string, password: string): string
  {
    name + [FieldSep] + url + [FieldSep] + user + [FieldSep] + password
  }

  /** What `StringBuilder.append(props.get(key))` writes: the value, or "null" when absent. */
  function JavaGet(props: map<string, string>, key: string): string
  {
    if key in props then props[key] else "null"
  }

  /** The line `loadCatalog` stores for a local mysql catalog. */
  function LocalLine(name: string, props: map<string, string>): string
  {
    Encode(name, JavaGet(props, UrlKey), JavaGet(props, UserKey), JavaGet(props, PasswordKey))
  }

  /** `line.split(f_split)`. */
  function Fields(line: string): seq<string>
  {
    Split(line, FieldSep)
  }

  /** `catalogInfo[0]`, or None where that index is out of bounds. */
  function NameOf(line: string): Option<string>
  {
    var fields := Fields(line);
    if |fields| == 0 then None else Some(fields[0])
  }

  /** The fields `catalogInfo[0..3]` that `addCatalog` reads, or None where one
      of those indexes is out of bounds. */
  function Decode(line: string): (r: Option<Connection>)
    ensures r.Some? ==> NameOf(line) == Some(r.value.name)
  {
    var fields := Fields(line);
    if |fields| < 4 then None
    else Some(Connection(fields[0], fields[1], fields[2], fields[3]))
  }

  /** The property map `addCatalog` passes to `createConnection`. */
  function Properties(c: Connection): map<string, string>
  {
    map[UrlKey := c.url, UserKey := c.user, PasswordKey := c.password]
  }

  /** Every stored line names its own key: `deleteCatalog(catalogMap.get(k))` drops `k`. */
  ghost predicate KeysMatch(m: map<string, string>)
  {
    forall k :: k in m ==> NameOf(m[k]) == Some(k)
  }

  /** The line is the four fields joined by the field separator. */
  lemma EncodeIsJoin(name: string, url: string, user: string, password: string)
    ensures Encode(name, url, user, password) == Join([name, url, user, password], FieldSep)
  {
    var parts := [name, url, user, password];
    assert parts[1..] == [url, user, password];
    assert parts[1..][1..] == [user, password];
    assert parts[1..][1..][1..] == [password];
    assert Join([password], FieldSep) == password;
    assert Join([user, password], FieldSep) == user + [FieldSep] + password;
    assert Join([url, user, password], FieldSep) == url + [FieldSep] + (user + [FieldSep] + password);
    assert Join(parts, FieldSep) == name + [FieldSep] + (url + [FieldSep] + (user + [FieldSep] + password));
  }

  /** The round trip of a local load followed by a remote add: decoding the line
      recovers every field, provided none holds the separator and the password
      is not empty. */
  lemma DecodeEncode(name: string, url: string, user: string, password: string)
    requires FieldSep !in name && FieldSep !in url && FieldSep !in user && FieldSep !in password
    requires password != ""
    ensures Decode(Encode(name, url, user, password)) == Some(Connection(name, url, user, password))
    ensures Properties(Decode(Encode(name, url, user, password)).value)
         == map[UrlKey := url, UserKey := user, PasswordKey := password]
  {
    EncodeIsJoin(name, url, user, password);
    SplitJoin([name, url, user, password], FieldSep);
  }

  /** Java's `split` drops trailing empty fields, so a line with an empty
      password has fewer than four fields and `catalogInfo[3]` is out of bounds. */
  lemma EmptyPasswordNotDecodable(name: string, url: string, user: string)
    requires FieldSep !in name && FieldSep !in url && FieldSep !in user
    ensures Decode(Encode(name, url, user, "")) == None
  {
    var parts := [name, url, user, ""];
    EncodeIsJoin(name, url, user, "");
    var line := Encode(name, url, user, "");
    assert line[|name|] == FieldSep;
    SplitAllJoin(parts, FieldSep);
    assert Fields(line) == DropTrailingEmpty(parts);
  }

  /** The first field of a line built from a name without separators is that name,
      whatever the other fields hold. */
  lemma NameOfEncode(name: string, url: string, user: string, password: string)
    requires FieldSep !in name && name != ""
    ensures NameOf(Encode(name, url, user, password)) == Some(name)
  {
    var rest := url + [FieldSep] + user + [FieldSep] + password;
    var line := Encode(name, url, user, password);
    assert line == name + [FieldSep] + rest;
    assert line[|name|] == FieldSep;
    SplitAllAfterPiece(name, FieldSep, rest);
    var parts := SplitAll(line, FieldSep);
    assert parts[0] == name;
    var kept := DropTrailingEmpty(parts);
    DropTrailingEmptyDropsEmpty(parts);
    assert |kept| > 0 && kept[0] == name;
  }
}
