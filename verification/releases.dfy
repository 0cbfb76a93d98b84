/** The release store and the `current` link: upload, deploy,
    deactivate, delete and the release listing of the admin panel, with the
    filesystem abstracted to a map from release name to release and the
    `current` symlink to an optional target.

    A link target is a path relative to the releases directory. The
    empty target `""` is the releases directory itself: that is where
    `RELEASES / rname` leads when a name sanitises to nothing. */
module Releases {
  import opened Common
  import opened Names
  import opened StringOrder
  import opened Manifest
  import opened Bundle

  /** Exit status and captured output of a command run through `run`. */
  datatype RunResult = RunResult(rc: int, output: string)

  /** The `details` of a validation report: the filled metadata, and the
      output of the compile and import checks when they ran. */
  datatype Details = Details(releaseJson: Metadata, pyCompile: Option<string>, importTest: Option<string>)

  /** `validation_report.json`. */
  datatype Report = Report(ok: bool, errors: seq<string>, details: Details, validatedAt: string)

  /** One release directory: the extracted bundle, its `release.json`, its
      `validation_report.json`, and whether `release_bundle.zip` exists. */
  datatype Release = Release(tree: Tree, meta: Option<Metadata>, report: Option<Report>, hasBundle: bool)

  /** The releases directory and the `current` symlink. */
  datatype Store = Store(releases: map<string, Release>, current: Option<string>)

  /** The upload form fields. */
  datatype UploadForm = UploadForm(releaseName: string, description: string, apiPort: int, createdBy: string)

  /** An extracted upload: its tree and what reading its `release.json` gave. */
  datatype Extracted = Extracted(tree: Tree, manifest: ManifestFile)

  /** What the outside world contributes to one upload: the two timestamps
      and the results of the compile and import commands, should they run. */
  datatype Environment = Environment(createdAt: string, validatedAt: string, compile: RunResult, importTest: RunResult)

  const CompileFailed := "Python compile/import validation failed"

  /** Whether `RELEASES / target` exists; the empty target is the releases
      directory itself, which always exists. */
  predicate TargetExists(s: Store, target: string) {
    target == "" || target in s.releases
  }

  /** The store invariant: every release is stored under a non-empty
      sanitised name, the only names upload creates (`upload_release`
      refuses an empty one), and `current`, when set, names an existing
      release, so the served service is always an installed release. */
  predicate Consistent(s: Store) {
    && (forall n :: n in s.releases ==> n != "" && IsSafe(n))
    && (s.current.Some? ==> s.current.value in s.releases)
  }

  // ---------------------------------------------------------------- upload

  /** The validation report `upload_release` writes. The compile and import
      commands run only when the structure check passed; the report is `ok`
      exactly when the structure passed and both commands exited with 0. */
  function Verdict(tree: Tree, meta: Metadata, env: Environment): (rep: Report)
    ensures rep.ok <==>
      ValidateZipStructure(tree).0 && env.compile.rc == 0 && env.importTest.rc == 0
    ensures rep.ok <==> rep.errors == []
    ensures rep.details.pyCompile.Some? <==> ValidateZipStructure(tree).0
    ensures rep.details.importTest.Some? <==> ValidateZipStructure(tree).0
    ensures rep.details.pyCompile.Some? ==>
      rep.details.pyCompile.value == env.compile.output &&
      rep.details.importTest.value == env.importTest.output
    ensures rep.details.releaseJson == meta && rep.validatedAt == env.validatedAt
    ensures |ValidateZipStructure(tree).1| <= |rep.errors|
    ensures rep.errors[..|ValidateZipStructure(tree).1|] == ValidateZipStructure(tree).1
    ensures rep.errors[|ValidateZipStructure(tree).1|..] ==
      (if ValidateZipStructure(tree).0 && !rep.ok then [CompileFailed] else [])
  {
    var (structureOk, errors) := ValidateZipStructure(tree);
    if !structureOk then
      Report(false, errors, Details(meta, None, None), env.validatedAt)
    else
      var ok := env.compile.rc == 0 && env.importTest.rc == 0;
      Report(ok, if ok then errors else errors + [CompileFailed],
             Details(meta, Some(env.compile.output), Some(env.importTest.output)),
             env.validatedAt)
  }

  /** The filled metadata for an upload, or `None` when filling raises. */
  function UploadMeta(form: UploadForm, up: Extracted, env: Environment): Option<Metadata> {
    EnsureReleaseJson(up.manifest, SafeName(form.releaseName), form.description,
                      form.createdBy, form.apiPort, env.createdAt)
  }

  /** Whether `upload_release` installs the upload: the sanitised name is
      non-empty and free, the archive could be extracted, and filling its
      metadata did not raise. Validity is not a condition. */
  predicate Installs(s: Store, form: UploadForm, upload: Option<Extracted>, env: Environment) {
    && SafeName(form.releaseName) != ""
    && SafeName(form.releaseName) !in s.releases
    && upload.Some?
    && UploadMeta(form, upload.value, env).Some?
  }

  /** `upload_release`. `upload` is `None` when the file is not a readable
      ZIP archive. A refused or failed upload changes nothing; an accepted
      one adds exactly one release, valid or not, and touches neither the
      other releases nor `current`. */
  function Upload(s: Store, form: UploadForm, upload: Option<Extracted>, env: Environment): (r: Store)
    ensures r.current == s.current
    ensures forall n :: n in s.releases ==> n in r.releases && r.releases[n] == s.releases[n]
    ensures !Installs(s, form, upload, env) ==> r == s
    ensures Installs(s, form, upload, env) ==>
      var name := SafeName(form.releaseName);
      var meta := UploadMeta(form, upload.value, env).value;
      && r.releases.Keys == s.releases.Keys + {name}
      && r.releases[name] == Release(upload.value.tree, Some(meta),
                                     Some(Verdict(upload.value.tree, meta, env)), true)
  {
    if !Installs(s, form, upload, env) then s
    else
      var meta := UploadMeta(form, upload.value, env).value;
      Install(s, SafeName(form.releaseName),
              Release(upload.value.tree, Some(meta), Some(Verdict(upload.value.tree, meta, env)), true))
  }

  /** Moving a new release directory into place under a free name. */
  function Install(s: Store, name: string, release: Release): (r: Store)
    requires name !in s.releases
    ensures r.current == s.current
    ensures r.releases.Keys == s.releases.Keys + {name}
    ensures r.releases[name] == release
    ensures forall n :: n in s.releases ==> r.releases[n] == s.releases[n]
  {
    s.(releases := s.releases[name := release])
  }

  // ------------------------------------------------------ deploy / deactivate

  /** `deploy_release` as written: the only check is that
      `RELEASES / safe_name(name)` exists, which the releases directory
      itself passes when the name sanitises to nothing. */
  function DeployAsWritten(s: Store, name: string): (r: Store)
    ensures r.releases == s.releases
    ensures !TargetExists(s, SafeName(name)) ==> r == s
    ensures TargetExists(s, SafeName(name)) ==> r.current == Some(SafeName(name))
  {
    var target := SafeName(name);
    if !TargetExists(s, target) then s else s.(current := Some(target))
  }

  /** `deploy_release` with the empty-name refusal `upload_release` already
      has. Deploying an unknown release changes nothing; otherwise
      `current` names the release. The validation report is not consulted
      and the release set is never touched. */
  function Deploy(s: Store, name: string): (r: Store)
    ensures r.releases == s.releases
    ensures SafeName(name) !in s.releases || SafeName(name) == "" ==> r == s
    ensures SafeName(name) in s.releases && SafeName(name) != "" ==> r.current == Some(SafeName(name))
  {
    var target := SafeName(name);
    if target == "" || target !in s.releases then s else s.(current := Some(target))
  }

  /** `deactivate_service`: `current` is removed whatever the stop command
      returns. */
  function Deactivate(s: Store): (r: Store)
    ensures r.current.None?
    ensures r.releases == s.releases
  {
    s.(current := None)
  }

  // ---------------------------------------------------------------- delete

  /** Whether `CURRENT.exists() and CURRENT.resolve() == target.resolve()`. */
  predicate IsCurrent(s: Store, target: string) {
    s.current == Some(target) && TargetExists(s, target)
  }

  /** `delete_release` as written. The active release is kept; otherwise
      `rmtree(RELEASES / safe_name(name))` runs, and when the name
      sanitises to nothing that is the whole releases directory. */
  function DeleteAsWritten(s: Store, name: string): (r: Store)
    ensures r.current == s.current
    ensures IsCurrent(s, SafeName(name)) ==> r == s
    ensures !IsCurrent(s, SafeName(name)) && SafeName(name) == "" ==> r.releases == map[]
    ensures !IsCurrent(s, SafeName(name)) && SafeName(name) != "" ==>
      r.releases == s.releases - {SafeName(name)}
  {
    var target := SafeName(name);
    if IsCurrent(s, target) then s
    else if target == "" then s.(releases := map[])
    else s.(releases := s.releases - {target})
  }

  /** `delete_release` with the empty-name refusal. The active release and
      unknown names are left alone; otherwise exactly that release goes and
      every other release, and `current`, stay as they were. */
  function Delete(s: Store, name: string): (r: Store)
    ensures r.current == s.current
    ensures SafeName(name) == "" || s.current == Some(SafeName(name)) ==> r == s
    ensures SafeName(name) != "" && s.current != Some(SafeName(name)) ==>
      r.releases == s.releases - {SafeName(name)}
    ensures r.releases.Keys == s.releases.Keys - (if r == s then {} else {SafeName(name)})
    ensures forall n :: n in r.releases ==> r.releases[n] == s.releases[n]
  {
    var target := SafeName(name);
    if target == "" || IsCurrent(s, target) then s
    else s.(releases := s.releases - {target})
  }

  // --------------------------------------------------------------- listing

  datatype Status = Active | Valid | Invalid | Unknown

  /** One row of the release list. */
  datatype Item = Item(name: string, status: Status, hasBundle: bool, meta: Metadata)

  /** The status a release's report gives it when it is not active. */
  function ReportStatus(report: Option<Report>): Status {
    match report
    case None => Unknown
    case Some(rep) => if rep.ok then Valid else Invalid
  }

  function ItemFor(s: Store, name: string): Item
    requires name in s.releases
  {
    var rel := s.releases[name];
    Item(name, if IsCurrent(s, name) then Active else ReportStatus(rel.report),
         rel.hasBundle, rel.meta.GetOr(map[]))
  }

  /** `listing` is what `RELEASES.iterdir()` yields: every release once, in
      no particular order. */
  predicate Lists(s: Store, listing: seq<string>) {
    && Distinct(listing)
    && (forall i :: 0 <= i < |listing| ==> listing[i] in s.releases)
    && (forall n :: n in s.releases ==> n in listing)
  }

  function ItemNames(items: seq<Item>): seq<string> {
    seq(|items|, i requires 0 <= i < |items| => items[i].name)
  }

  /** `list_releases`: one item per release in ascending name order. A
      release is ACTIVE exactly when `current` names it; otherwise its
      report decides between VALID and INVALID, and a release without a
      report is UNKNOWN. */
  function ListReleases(s: Store, listing: seq<string>): (items: seq<Item>)
    requires Lists(s, listing)
    ensures |items| == |listing|
    ensures Sorted(ItemNames(items)) && Distinct(ItemNames(items))
    ensures forall n :: n in s.releases <==> n in ItemNames(items)
    ensures forall i :: 0 <= i < |items| ==> items[i].name in s.releases
    ensures forall i :: 0 <= i < |items| ==>
      (items[i].status == Active <==> s.current == Some(items[i].name))
    ensures forall i :: 0 <= i < |items| && s.current != Some(items[i].name) ==>
      items[i].status == ReportStatus(s.releases[items[i].name].report)
    ensures forall i :: 0 <= i < |items| ==>
      items[i].hasBundle == s.releases[items[i].name].hasBundle
    ensures forall i :: 0 <= i < |items| ==>
      items[i].meta == s.releases[items[i].name].meta.GetOr(map[])
  {
    var sorted := Sort(listing);
    SortListing(s, listing);
    ItemForStatus(s);
    ItemsFor(s, sorted)
  }

  /** The status shown for a release: ACTIVE exactly when `current` points
      at it, otherwise what its report says. */
  lemma ItemForStatus(s: Store)
    ensures forall n :: n in s.releases ==>
      && ItemFor(s, n).name == n
      && (ItemFor(s, n).status == Active <==> s.current == Some(n))
      && (s.current != Some(n) ==> ItemFor(s, n).status == ReportStatus(s.releases[n].report))
      && ItemFor(s, n).hasBundle == s.releases[n].hasBundle
      && ItemFor(s, n).meta == s.releases[n].meta.GetOr(map[])
  {
  }

  /** The sorted listing holds every release once. */
  lemma SortListing(s: Store, listing: seq<string>)
    requires Lists(s, listing)
    ensures |Sort(listing)| == |listing|
    ensures Distinct(Sort(listing))
    ensures forall n :: n in Sort(listing) <==> n in s.releases
  {
    var sorted := Sort(listing);
    PermutationDistinct(sorted, listing);
    assert |sorted| == |multiset(sorted)| == |multiset(listing)| == |listing|;
    forall n ensures n in sorted <==> n in listing {
      assert n in sorted <==> n in multiset(sorted);
      assert n in listing <==> n in multiset(listing);
    }
  }

  /** One item per name, in the order given. */
  function ItemsFor(s: Store, names: seq<string>): (items: seq<Item>)
    requires forall i :: 0 <= i < |names| ==> names[i] in s.releases
    ensures ItemNames(items) == names
    ensures forall i :: 0 <= i < |items| ==> items[i] == ItemFor(s, names[i])
  {
    var items := seq(|names|, i requires 0 <= i < |names| => ItemFor(s, names[i]));
    assert ItemNames(items) == names;
    items
  }
}
