/** Filling a release's `release.json` metadata at upload time
    (`ensure_release_json`): the uploader's document is kept, the documented
    defaults fill the gaps, `api_port` is converted to an integer, and the
    two creation stamps are always rewritten. */
module Manifest {
  import opened Common
  import opened JsonValues

  /** What reading `release.json` out of the extracted bundle yields: no
      such file, a file that cannot be read or decoded, or a decoded
      document. */
  datatype ManifestFile = Absent | Unreadable | Present(doc: Json)

  type Metadata = map<string, Json>

  const HealthcheckDefault: Json :=
    Obj(map["path" := Str("/health"), "method" := Str("GET")])

  /** The dictionary the code works on, or `None` when loading raises or
      the document is not an object (so `data.get` would raise). */
  function Loaded(file: ManifestFile): Option<Metadata> {
    match file
    case Absent => Some(map[])
    case Unreadable => None
    case Present(doc) => if doc.Obj? then Some(doc.fields) else None
  }

  /** Python's `data.get(key, default)`. */
  function Get(data: Metadata, key: string, default: Json): Json {
    if key in data then data[key] else default
  }

  /** The keys the function assigns; every other key is left alone. */
  predicate IsManaged(key: string) {
    key in ManagedKeys
  }

  /** `key` keeps the uploader's value, or receives `default` when absent. */
  predicate KeptOrDefaulted(data: Metadata, r: Metadata, key: string, default: Json) {
    key in r && r[key] == (if key in data then data[key] else default)
  }

  /** The port after `int(...)`; `None` when the conversion raises. */
  function Port(data: Metadata, apiPort: int): Option<int> {
    if "api_port" in data then ToInt(data["api_port"]) else Some(apiPort)
  }

  const ManagedKeys: set<string> :=
    {"release_name", "project_name", "service_type", "entrypoint",
     "api_port", "created_at", "created_by", "description", "healthcheck"}

  /** The value the function leaves under `key`, in the order the code
      assigns them. */
  function Field(data: Metadata, key: string, releaseName: string, description: string,
                 createdBy: string, port: int, createdAt: string): Json
    requires key in data || IsManaged(key)
  {
    if key == "release_name" then Get(data, key, Str(releaseName))
    else if key == "project_name" then Get(data, key, Str("generic-service"))
    else if key == "service_type" then Get(data, key, Str("fastapi"))
    else if key == "entrypoint" then Get(data, key, Str("service.app:app"))
    else if key == "api_port" then Num(port)
    else if key == "created_at" then Str(createdAt)
    else if key == "created_by" then Str(createdBy)
    else if key == "description" then Get(data, key, Str(description))
    else if key == "healthcheck" then Get(data, key, HealthcheckDefault)
    else data[key]
  }

  /** The dictionary once every assignment has run, given the converted
      port. */
  function Filled(data: Metadata, releaseName: string, description: string,
                  createdBy: string, port: int, createdAt: string): Metadata
  {
    map k | k in data.Keys + ManagedKeys ::
      Field(data, k, releaseName, description, createdBy, port, createdAt)
  }

  lemma FilledKeys(data: Metadata, releaseName: string, description: string,
                   createdBy: string, port: int, createdAt: string)
    ensures Filled(data, releaseName, description, createdBy, port, createdAt).Keys
      == data.Keys + ManagedKeys
  {
  }

  lemma FilledKept(data: Metadata, releaseName: string, description: string,
                   createdBy: string, port: int, createdAt: string)
    ensures var m := Filled(data, releaseName, description, createdBy, port, createdAt);
      && KeptOrDefaulted(data, m, "release_name", Str(releaseName))
      && KeptOrDefaulted(data, m, "project_name", Str("generic-service"))
      && KeptOrDefaulted(data, m, "service_type", Str("fastapi"))
  {
  }

  lemma FilledKeptToo(data: Metadata, releaseName: string, description: string,
                      createdBy: string, port: int, createdAt: string)
    ensures var m := Filled(data, releaseName, description, createdBy, port, createdAt);
      && KeptOrDefaulted(data, m, "entrypoint", Str("service.app:app"))
      && KeptOrDefaulted(data, m, "description", Str(description))
      && KeptOrDefaulted(data, m, "healthcheck", HealthcheckDefault)
  {
  }

  lemma FilledStamps(data: Metadata, releaseName: string, description: string,
                     createdBy: string, port: int, createdAt: string)
    ensures var m := Filled(data, releaseName, description, createdBy, port, createdAt);
      && m["api_port"] == Num(port)
      && m["created_at"] == Str(createdAt)
      && m["created_by"] == Str(createdBy)
  {
  }

  lemma FilledOthers(data: Metadata, releaseName: string, description: string,
                     createdBy: string, port: int, createdAt: string)
    ensures var m := Filled(data, releaseName, description, createdBy, port, createdAt);
      forall k :: k in data && !IsManaged(k) ==> m[k] == data[k]
  {
  }

  /** `ensure_release_json`. `None` stands for the cases that raise before
      anything is written: an unreadable or non-object document, or an
      `api_port` that `int()` rejects. */
  function EnsureReleaseJson(file: ManifestFile, releaseName: string, description: string,
                             createdBy: string, apiPort: int, createdAt: string): (r: Option<Metadata>)
    ensures r.None? <==> Loaded(file).None? || Port(Loaded(file).value, apiPort).None?
    ensures r.Some? ==>
      var data := Loaded(file).value;
      && r.value.Keys == data.Keys + ManagedKeys
      && KeptOrDefaulted(data, r.value, "release_name", Str(releaseName))
      && KeptOrDefaulted(data, r.value, "project_name", Str("generic-service"))
      && KeptOrDefaulted(data, r.value, "service_type", Str("fastapi"))
      && KeptOrDefaulted(data, r.value, "entrypoint", Str("service.app:app"))
      && KeptOrDefaulted(data, r.value, "description", Str(description))
      && KeptOrDefaulted(data, r.value, "healthcheck", HealthcheckDefault)
      && r.value["api_port"] == Num(Port(data, apiPort).value)
      && r.value["created_at"] == Str(createdAt)
      && r.value["created_by"] == Str(createdBy)
      && (forall k :: k in data && !IsManaged(k) ==> r.value[k] == data[k])
  {
    match Loaded(file)
    case None => None
    case Some(data) =>
      match Port(data, apiPort)
      case None => None
      case Some(port) =>
        FilledKeys(data, releaseName, description, createdBy, port, createdAt);
        FilledKept(data, releaseName, description, createdBy, port, createdAt);
        FilledKeptToo(data, releaseName, description, createdBy, port, createdAt);
        FilledStamps(data, releaseName, description, createdBy, port, createdAt);
        FilledOthers(data, releaseName, description, createdBy, port, createdAt);
        Some(Filled(data, releaseName, description, createdBy, port, createdAt))
  }

  /** A dictionary that already went through the function once: every
      managed key is present and `api_port` is an integer. */
  predicate Complete(m: Metadata) {
    ManagedKeys <= m.Keys && m["api_port"].Num?
  }

  /** On a complete dictionary every key but the two stamps keeps its
      value. */
  lemma FieldOfComplete(m: Metadata, k: string, releaseName: string, description: string,
                        createdBy: string, createdAt: string)
    requires Complete(m) && k in m
    ensures Field(m, k, releaseName, description, createdBy, m["api_port"].n, createdAt)
      == if k == "created_at" then Str(createdAt)
         else if k == "created_by" then Str(createdBy)
         else m[k]
  {
  }

  lemma RefillComplete(m: Metadata, releaseName: string, description: string,
                       createdBy: string, createdAt: string)
    requires Complete(m)
    ensures Filled(m, releaseName, description, createdBy, m["api_port"].n, createdAt)
      == m["created_at" := Str(createdAt)]["created_by" := Str(createdBy)]
  {
    var r := Filled(m, releaseName, description, createdBy, m["api_port"].n, createdAt);
    var e := m["created_at" := Str(createdAt)]["created_by" := Str(createdBy)];
    FilledKeys(m, releaseName, description, createdBy, m["api_port"].n, createdAt);
    assert r.Keys == e.Keys;
    forall k | k in e
      ensures r[k] == e[k]
    {
      FieldOfComplete(m, k, releaseName, description, createdBy, createdAt);
    }
  }

  /** Filling a document that was already filled changes only the two
      creation stamps: every default is already present and `api_port` is
      already an integer, whatever name, description or port is offered. */
  lemma RefillOnlyRestamps(file: ManifestFile, releaseName: string, description: string,
                           createdBy: string, apiPort: int, createdAt: string,
                           releaseName': string, description': string,
                           createdBy': string, apiPort': int, createdAt': string)
    requires EnsureReleaseJson(file, releaseName, description, createdBy, apiPort, createdAt).Some?
    ensures
      var m := EnsureReleaseJson(file, releaseName, description, createdBy, apiPort, createdAt).value;
      EnsureReleaseJson(Present(Obj(m)), releaseName', description', createdBy', apiPort', createdAt')
        == Some(m["created_at" := Str(createdAt')]["created_by" := Str(createdBy')])
  {
    var m := EnsureReleaseJson(file, releaseName, description, createdBy, apiPort, createdAt).value;
    assert Complete(m);
    assert Loaded(Present(Obj(m))) == Some(m);
    assert Port(m, apiPort') == Some(m["api_port"].n);
    RefillComplete(m, releaseName', description', createdBy', createdAt');
  }

  /** An `api_port` string that starts with U+001C makes `int()` raise, so
      nothing is filled (and the upload installs nothing). */
  lemma SeparatorPortRefused(fields: map<string, Json>, t: string, releaseName: string,
                             description: string, createdBy: string, apiPort: int, createdAt: string)
    requires "api_port" in fields && fields["api_port"] == Str(['\U{1C}'] + t)
    ensures EnsureReleaseJson(Present(Obj(fields)), releaseName, description, createdBy, apiPort, createdAt) == None
  {
    SeparatorNotSkipped(t);
  }
}
