# Release manager admin panel: a Dafny model

This project models the bookkeeping core of the release manager's admin
panel (`admin_panel/app/main.py`). The panel accepts uploaded release
bundles, installs each one under `releases/<name>/` with a `release.json`
and a `validation_report.json`, lists the installed releases, and points the
`current` symlink at the release that should be served.

The filesystem is abstracted to a `Store`. It holds a map from release name
to `Release` (the extracted tree, the metadata, the report, and whether the
canonical archive exists) and `current: Option<string>`. A link target is
a path relative to the releases directory. The empty target `""` stands for
the releases directory itself, which is where `RELEASES / rname` leads when
a name sanitises to nothing.

Modules, one per concern of the source file:

- `Names` (`names.dfy`): `safe_name`, the whitelist filter followed by `strip("_-")`.
- `Bundle` (`bundle.dfy`): `validate_zip_structure`, and the file selection of `build_canonical_zip`.
- `Manifest` (`manifest.dfy`): `ensure_release_json`.
- `JsonValues` (`json.dfy`): decoded JSON values and Python's `int()` on them, used for `api_port`.
- `Releases` (`releases.dfy`): the store, the upload verdict, upload, deploy, deactivate, delete and the listing.
- `Lifecycle` (`lifecycle.dfy`): lemmas that relate several operations.
- `StringOrder`, `Seqs`, `Chars` and `Common` hold Python string order with sorting, generic filter/trim/subsequence lemmas, the ASCII letter and digit classes, and `Option`.

`deploy_release` checks only that the release directory exists. It does
not consult the validation report, run a health check, or roll back. The
file also has no clone naming and no dependency installer. The model's
`Deploy` likewise checks only that the release exists, so an INVALID
release can be deployed.

## Model

| member | source | states |
|---|---|---|
| `Names.SafeName` | admin_panel/app/main.py:50-53 | The sanitised name contains only `[A-Za-z0-9_-]` and neither begins nor ends with `_` or `-` |
| `Names.SafeNameSubseq` | admin_panel/app/main.py:50-53 | The sanitised name is a subsequence of the input: characters are only deleted, never added or reordered |
| `Names.SafeNameFixed` | admin_panel/app/main.py:50-53 | A name is left unchanged by sanitising exactly when it is already safe (whitelisted, no separator at either end) |
| `Names.SafeNameIdempotent` | admin_panel/app/main.py:50-53 | Sanitising twice gives the same result as sanitising once |
| `Names.SafeNameKeepsAlnums` | admin_panel/app/main.py:50-53 | No ASCII letter or digit is lost: the letters and digits of the result are those of the input, in order |
| `Names.SafeNameEmptyIff` | admin_panel/app/main.py:50-53 | The sanitised name is empty exactly when the input has no ASCII letter or digit, in both directions |
| `Lifecycle.SeparatorsSanitiseToNothing` | admin_panel/app/main.py:50-53 | Concrete names such as `--` and `!!` sanitise to the empty name |
| `StringOrder.Sort` | admin_panel/app/main.py:58 | The listing order is an ascending permutation of the directory names under Python's string order |
| `StringOrder.SortedUnique` | admin_panel/app/main.py:58 | Two ascending, repeat-free sequences with the same names are equal, so sorted order is unique |
| `Bundle.ValidateZipStructure` | admin_panel/app/main.py:75-82 | ok iff both `service` and `assets` exist at the top level; ok iff no errors; each error present iff its entry is missing; the service error comes first |
| `Bundle.BuildCanonicalZip` | admin_panel/app/main.py:118-126 | The archive holds exactly the walked files whose basename is not `release_bundle.zip`, at any depth, in walk order |
| `Bundle.ArchiveIgnoresOldBundle` | admin_panel/app/main.py:113-126 | A stale `release_bundle.zip` anywhere in the walk does not change the new archive's entries |
| `Bundle.ArchiveCoversDirectory` | admin_panel/app/main.py:118-126 | When the walk lists a directory, the archive holds every file not named `release_bundle.zip` with its contents and nothing else |
| `Manifest.EnsureReleaseJson` | admin_panel/app/main.py:93-111 | Six keys keep the uploader's value or get their documented default; `api_port` becomes an integer; `created_at` and `created_by` are always overwritten; other keys are untouched; it fails exactly when the document is unreadable or not an object, or when `int()` rejects `api_port` |
| `Manifest.RefillOnlyRestamps` | admin_panel/app/main.py:100-109 | Filling an already-filled document again changes only `created_at` and `created_by`, whatever other arguments are given |
| `JsonValues.ParseShowInt` | admin_panel/app/main.py:105 | The `int()` conversion of `api_port` inverts decimal printing for every integer of at most 4300 digits, and refuses every longer one (Python's default digit limit) |
| `JsonValues.SpacesSkipped` | admin_panel/app/main.py:105 | `int()` skips ASCII whitespace around the number: a printed integer padded with a space and a newline converts to the same result |
| `JsonValues.SeparatorNotSkipped` | admin_panel/app/main.py:105 | `int()` refuses every string that begins with U+001C: the information separators are not whitespace to `int()`, although `str.isspace()` accepts them |
| `Manifest.SeparatorPortRefused` | admin_panel/app/main.py:101-105 | An `api_port` string beginning with U+001C makes the fill fail, so nothing is written |
| `Releases.Verdict` | admin_panel/app/main.py:178-194 | The report is ok iff the structure passed and both commands returned 0; the commands' output is recorded iff the structure passed; errors are the structure errors, plus the compile/import error when that check failed |
| `Releases.Upload` | admin_panel/app/main.py:152-201 | An empty or taken sanitised name, a bad archive, or a failing metadata fill changes nothing. Otherwise exactly one release is added under the sanitised name, valid or not, with its verdict. No existing release and not `current` is touched |
| `Releases.DeployAsWritten` | admin_panel/app/main.py:210-224 | The code as written: if `RELEASES / safe_name(name)` exists, `current` points there, including the releases directory itself for an empty name. Releases are untouched |
| `Releases.Deploy` | admin_panel/app/main.py:210-224 | Deploying an unknown or empty name changes nothing. Otherwise `current` names the release, whatever its report says. The release set is untouched |
| `Releases.Deactivate` | admin_panel/app/main.py:242-251 | `current` is cleared, whatever the stop command reports, and the release set is untouched |
| `Releases.DeleteAsWritten` | admin_panel/app/main.py:270-276 | The code as written: the active release is kept. Otherwise exactly the named release is removed and every other release is unchanged, except that an empty name removes every release |
| `Releases.Delete` | admin_panel/app/main.py:270-276 | Deleting the active release or an empty name is a no-op. Otherwise the release map is the old one minus exactly that name, and `current` is unchanged |
| `Releases.ListReleases` | admin_panel/app/main.py:55-73 | One item per release in strictly ascending name order. ACTIVE iff `current` names the release. Otherwise VALID/INVALID by the report's `ok`, or UNKNOWN without a report. Each item carries the release's bundle flag and its metadata, or `{}` without one |
| `Lifecycle.ListingOrderIrrelevant` | admin_panel/app/main.py:58 | The listing is the same whatever order the directory was read in |
| `Lifecycle.DeployShowsActive` | admin_panel/app/main.py:65-69 | After deploying an existing release, the listing marks exactly that release ACTIVE, whatever its report says |
| `Lifecycle.DeactivateThenDelete` | admin_panel/app/main.py:238-251 | After deactivating, any release can be deleted, including the one that was active |
| `Lifecycle.UploadThenList` | admin_panel/app/main.py:196-200 | A freshly installed release is listed as VALID or INVALID by its verdict, never as ACTIVE |
| `Lifecycle.UploadKeepsConsistent` | admin_panel/app/main.py:152-158 | Upload keeps the invariant: names are non-empty and sanitised, and `current` names an existing release |
| `Lifecycle.DeployKeepsConsistent` | admin_panel/app/main.py:210-224 | The corrected deploy keeps the store invariant |
| `Lifecycle.DeleteKeepsConsistent` | admin_panel/app/main.py:270-276 | The corrected delete keeps the store invariant: the active release is never removed |
| `Lifecycle.RunKeepsConsistent` | admin_panel/app/main.py:144-277 | Every store reachable by uploads, the corrected deploy, deactivations and the corrected delete is consistent; the code's own deploy and delete break this on empty names (see Findings) |
| `Lifecycle.DeployAsWrittenEmptyName` | admin_panel/app/main.py:210-213 | As written, deploying a name that sanitises to nothing points `current` at the releases directory, which is not a release |
| `Lifecycle.DeleteAsWrittenEmptyName` | admin_panel/app/main.py:270-276 | As written, deleting a name that sanitises to nothing removes every release, the active one included |
| `Lifecycle.DeployAgreesOnNonEmptyNames` | admin_panel/app/main.py:210-224 | The corrected deploy equals the code on every name that does not sanitise to nothing |
| `Lifecycle.DeleteAgreesOnNonEmptyNames` | admin_panel/app/main.py:270-276 | The corrected delete equals the code on every name that does not sanitise to nothing |

## Left out

- HTTP routing, redirects, Jinja templates, `FileResponse`, and the home, service-status and logs pages. These are presentation only.
- `download_release`: it only serves the archive file. The archive it may rebuild is the one `Bundle.BuildCanonicalZip` selects.
- The commands run through `run`. The compile and import checks are opaque results (`RunResult`) given with the upload. The `systemctl restart` in deploy and the `systemctl stop` in deactivate are dropped, because the code ignores their return codes.
- ZIP extraction and DEFLATE bytes. An upload arrives as the extracted `Tree`, or as `None` when the archive cannot be opened.
- JSON text. `release.json` arrives as the outcome of reading it (`ManifestFile`), and reports and metadata are kept as records.
- `uuid`, the temporary upload paths and their clean-up, and `datetime.now`. The two timestamps are inputs.
- Exceptions from filesystem calls (move, symlink creation, rmtree errors) and from `run` itself (a missing `sudo` or virtual-environment interpreter). All of these are taken to succeed. A failure after extraction that the model does cover (bad `release.json`, bad `api_port`) is modelled as "nothing installed".
- Releases.Deactivate: assumes `run` returns. If starting `sudo systemctl stop` raises, the code's `except` at lines 253-254 skips the removal and `current` stays set.
- Releases.Upload: assumes both validation commands return a `RunResult`. If starting the interpreter raises at lines 188-189, the exception is not caught and nothing is installed, while the model installs the release with whatever result it is given.
- The symlink-versus-real-directory distinction for `current`. Both kinds of removal clear the `Option`.
- Files in the releases directory that are not directories (the `is_dir` filter), and a missing releases directory. The map holds release directories only.
- The archive model takes the directory walk as its input. It is not derived from `Release.tree`, because the managed files' bytes (`release.json`, the report) are JSON text.
- JSON numbers with a fraction, and therefore `int()` of a float `api_port`.
- Manifest.EnsureReleaseJson: an `api_port` string holding any non-ASCII character is refused. Python's `int()` first maps Unicode decimal digits to ASCII and Unicode whitespace from U+0080 up (U+0085, U+00A0, U+3000, ...) to spaces in such strings, so it accepts some of them. U+001C to U+001F stay refused there too.
- Manifest.EnsureReleaseJson: the digit limit is fixed at Python's default of 4300. The interpreter lets it be raised or switched off (`PYTHONINTMAXSTRDIGITS`, `sys.set_int_max_str_digits`).
- Concurrency: two requests racing between upload's existence check and its move are not modelled.
- Health checks, rollback, clone naming, dependency installation and locking. They do not exist in the code.

## Findings

| source | as written | input that shows it | evidently intended | confidence | as-written member | corrected member |
|---|---|---|---|---|---|---|
| admin_panel/app/main.py:210-213 | deploy checks only that `RELEASES / safe_name(name)` exists; for a name that sanitises to nothing that path is the releases directory, so `current` is pointed at it | `POST /admin/deploy/--` | refuse a name that sanitises to nothing, as upload does at lines 152-154 | high; not executed | `Lifecycle.DeployAsWrittenEmptyName` | `Releases.Deploy` |
| admin_panel/app/main.py:270-276 | delete runs `rmtree(RELEASES / safe_name(name))`; for a name that sanitises to nothing that removes the whole releases directory, the active release included, because the "is it active" test compares against the directory itself | `POST /admin/delete/--` | refuse a name that sanitises to nothing, as upload does at lines 152-154 | high; not executed | `Lifecycle.DeleteAsWrittenEmptyName` | `Releases.Delete` |

The corrected `Deploy` and `Delete` are the ones the rest of the model uses.
`Lifecycle.DeployKeepsConsistent`, `Lifecycle.DeleteKeepsConsistent` and
`Lifecycle.RunKeepsConsistent` prove the intended invariant about them.
`Lifecycle.DeployAgreesOnNonEmptyNames` and
`Lifecycle.DeleteAgreesOnNonEmptyNames` show that they differ from the code
only on names that sanitise to nothing.
