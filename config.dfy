/** The configuration loader (src/config/config_loader.py). Reading the file
    and parsing its JSON are abstracted into a `ConfigFile` outcome; what is
    modelled is how the loader maps those outcomes and the presence of the
    two sections to results and exceptions. */
module Config {
  import opened Base

  /** A JSON value. */
  datatype Json =
    | JNull
    | JBool(b: bool)
    | JNumber(n: int)
    | JString(s: string)
    | JArray(items: seq<Json>)
    | JObject(fields: map<string, Json>)

  /** What opening and parsing the configuration file gave: no such file,
      a file that is not valid JSON, or a parsed top-level JSON object. */
  datatype ConfigFile = Missing | Unparsable | Parsed(document: map<string, Json>)

  const TwitterSection := "twitter_api"
  const DatabaseSection := "database"

  /** `load_config`: the parsed document, or the exception the failure maps to. */
  function LoadConfig(file: ConfigFile, path: string): (r: Result<map<string, Json>>)
    ensures r.Ok? <==> file.Parsed?
    ensures r.Ok? ==> r.value == file.document
    ensures file.Missing? ==> r.Err? && r.error.FileNotFoundError?
    ensures file.Unparsable? ==> r.Err? && r.error.ValueError?
  {
    match file
    case Missing => Err(FileNotFoundError("Config file not found at: " + path))
    case Unparsable => Err(ValueError("Config file is not valid JSON"))
    case Parsed(document) => Ok(document)
  }

  /** One top-level section of the loaded configuration; a missing section
      raises KeyError with `message`. A load failure is returned before the
      section is looked at. */
  function Section(file: ConfigFile, path: string, key: string, message: string): Result<Json> {
    match LoadConfig(file, path)
    case Err(e) => Err(e)
    case Ok(config) => if key in config then Ok(config[key]) else Err(KeyError(message))
  }

  /** `get_twitter_config`. */
  function GetTwitterConfig(file: ConfigFile, path: string): (r: Result<Json>)
    ensures file.Parsed? && TwitterSection in file.document ==> r == Ok(file.document[TwitterSection])
    ensures file.Parsed? && TwitterSection !in file.document ==>
      r == Err(KeyError("Twitter API configuration not found in config file"))
    ensures !file.Parsed? ==> r == Err(LoadConfig(file, path).error)
  {
    Section(file, path, TwitterSection, "Twitter API configuration not found in config file")
  }

  /** `get_database_config`. */
  function GetDatabaseConfig(file: ConfigFile, path: string): (r: Result<Json>)
    ensures file.Parsed? && DatabaseSection in file.document ==> r == Ok(file.document[DatabaseSection])
    ensures file.Parsed? && DatabaseSection !in file.document ==>
      r == Err(KeyError("Database configuration not found in config file"))
    ensures !file.Parsed? ==> r == Err(LoadConfig(file, path).error)
  {
    Section(file, path, DatabaseSection, "Database configuration not found in config file")
  }

  /** The three load failures are told apart: a missing file, invalid JSON
      and a missing section raise three different exception kinds, and a
      load failure is the same whichever section was asked for. */
  lemma FailuresAreDistinct(path: string)
    ensures GetTwitterConfig(Missing, path).error.FileNotFoundError?
    ensures GetTwitterConfig(Unparsable, path).error.ValueError?
    ensures GetTwitterConfig(Parsed(map[]), path).error.KeyError?
    ensures GetDatabaseConfig(Missing, path) == GetTwitterConfig(Missing, path)
    ensures GetDatabaseConfig(Unparsable, path) == GetTwitterConfig(Unparsable, path)
  {
  }

  /** The name of a JSON value's Python type, as it appears in a TypeError. */
  function PyTypeName(v: Json): string {
    match v
    case JNull => "NoneType"
    case JBool(_) => "bool"
    case JNumber(_) => "int"
    case JString(_) => "str"
    case JArray(_) => "list"
    case JObject(_) => "dict"
  }

  /** Python's `v[key]` on a parsed JSON value: a dict lookup, KeyError
      naming the key when it is absent, TypeError on any other value. */
  function Subscript(v: Json, key: string): (r: Result<Json>)
    ensures r.Ok? <==> v.JObject? && key in v.fields
    ensures r.Ok? ==> r.value == v.fields[key]
    ensures v.JObject? && key !in v.fields ==> r == Err(KeyError(key))
    ensures !v.JObject? ==> r.Err? && r.error.TypeError?
  {
    match v
    case JObject(fields) => if key in fields then Ok(fields[key]) else Err(KeyError(key))
    case _ => Err(TypeError(PyTypeName(v)))
  }

  /** The values `v[keys[0]], v[keys[1]], ...` looked up in order, as
      consecutive keyword arguments are evaluated; the first failing lookup
      is the exception raised. */
  function LookupAll(v: Json, keys: seq<string>): (r: Result<seq<Json>>)
    ensures r.Ok? <==> (keys == [] || v.JObject?) && forall i :: 0 <= i < |keys| ==> keys[i] in v.fields
    ensures r.Ok? ==> |r.value| == |keys| && forall i :: 0 <= i < |keys| ==> r.value[i] == v.fields[keys[i]]
    ensures r.Err? && v.JObject? ==>
      exists i :: (0 <= i < |keys| && r.error == KeyError(keys[i]) && keys[i] !in v.fields
                   && forall j :: 0 <= j < i ==> keys[j] in v.fields)
    ensures r.Err? && !v.JObject? ==> |keys| > 0 && r.error.TypeError?
    decreases |keys|
  {
    if keys == [] then Ok([])
    else
      match Subscript(v, keys[0])
      case Err(e) => Err(e)
      case Ok(x) =>
        match LookupAll(v, keys[1..])
        case Err(e) =>
          assert forall j :: 1 <= j < |keys| ==> keys[j] == keys[1..][j - 1];
          Err(e)
        case Ok(xs) => Ok([x] + xs)
  }
}
