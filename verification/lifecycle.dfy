/** Properties that relate several store operations: the store invariant
    is kept by every operation, the listing reflects deploys and uploads,
    and the two operations that act on an unchecked empty name break the
    invariant. */
module Lifecycle {
  import opened Common
  import opened Names
  import opened StringOrder
  import opened Releases

  lemma UploadKeepsConsistent(s: Store, form: UploadForm, upload: Option<Extracted>, env: Environment)
    requires Consistent(s)
    ensures Consistent(Upload(s, form, upload, env))
  {
    if Installs(s, form, upload, env) {
      var r := Upload(s, form, upload, env);
      var name := SafeName(form.releaseName);
      forall n | n in r.releases
        ensures n != "" && IsSafe(n)
      {
        if n !in s.releases {
          assert n == name;
        }
      }
    }
  }

  lemma DeployKeepsConsistent(s: Store, name: string)
    requires Consistent(s)
    ensures Consistent(Deploy(s, name))
  {
  }

  lemma DeleteKeepsConsistent(s: Store, name: string)
    requires Consistent(s)
    ensures Consistent(Delete(s, name))
  {
  }

  /** The operations the admin panel offers on the store, with deploy and
      delete in their corrected form (`Deploy`, `Delete`), which refuse a
      name that sanitises to nothing. */
  datatype Op =
    | UploadOp(form: UploadForm, upload: Option<Extracted>, env: Environment)
    | DeployOp(name: string)
    | DeactivateOp
    | DeleteOp(name: string)

  function Apply(s: Store, op: Op): Store {
    match op
    case UploadOp(form, upload, env) => Upload(s, form, upload, env)
    case DeployOp(name) => Deploy(s, name)
    case DeactivateOp => Deactivate(s)
    case DeleteOp(name) => Delete(s, name)
  }

  function Run(s: Store, ops: seq<Op>): Store
    decreases |ops|
  {
    if |ops| == 0 then s else Run(Apply(s, ops[0]), ops[1..])
  }

  /** Every store reachable from a consistent one, in particular from the
      empty store, is consistent: release names stay sanitised and
      `current` never dangles. */
  lemma {:induction false} RunKeepsConsistent(s: Store, ops: seq<Op>)
    requires Consistent(s)
    ensures Consistent(Run(s, ops))
    decreases |ops|
  {
    if |ops| > 0 {
      match ops[0] {
        case UploadOp(form, upload, env) => UploadKeepsConsistent(s, form, upload, env);
        case DeployOp(name) => DeployKeepsConsistent(s, name);
        case DeactivateOp =>
        case DeleteOp(name) => DeleteKeepsConsistent(s, name);
      }
      RunKeepsConsistent(Apply(s, ops[0]), ops[1..]);
    }
  }

  // ------------------------------------------------ the empty-name findings

  /** Names made only of separators and punctuation sanitise to nothing. */
  lemma SeparatorsSanitiseToNothing()
    ensures SafeName("--") == "" && SafeName("!!") == ""
  {
    assert forall i :: 0 <= i < |"--"| ==> !IsAlnum("--"[i]);
    SafeNameEmptyIff("--");
    assert forall i :: 0 <= i < |"!!"| ==> !IsAlnum("!!"[i]);
    SafeNameEmptyIff("!!");
  }

  /** As written, deploying a name that sanitises to nothing points
      `current` at the releases directory itself, which is no release. */
  lemma DeployAsWrittenEmptyName(s: Store, name: string)
    requires Consistent(s) && SafeName(name) == ""
    ensures DeployAsWritten(s, name).current == Some("")
    ensures !Consistent(DeployAsWritten(s, name))
  {
  }

  /** As written, deleting a name that sanitises to nothing removes the
      whole releases directory, the active release included. */
  lemma DeleteAsWrittenEmptyName(s: Store, name: string)
    requires Consistent(s) && SafeName(name) == "" && s.current.Some?
    ensures DeleteAsWritten(s, name).releases == map[]
    ensures DeleteAsWritten(s, name).current == s.current
    ensures !Consistent(DeleteAsWritten(s, name))
  {
  }

  /** The corrected deploy differs from the code only on names that
      sanitise to nothing. */
  lemma DeployAgreesOnNonEmptyNames(s: Store, name: string)
    requires SafeName(name) != ""
    ensures Deploy(s, name) == DeployAsWritten(s, name)
  {
  }

  /** The corrected delete differs from the code only on names that
      sanitise to nothing. */
  lemma DeleteAgreesOnNonEmptyNames(s: Store, name: string)
    requires SafeName(name) != ""
    ensures Delete(s, name) == DeleteAsWritten(s, name)
  {
  }

  // ------------------------------------------------------------- listing

  /** The listing does not depend on the order the directory was read in. */
  lemma ListingOrderIrrelevant(s: Store, l1: seq<string>, l2: seq<string>)
    requires Lists(s, l1) && Lists(s, l2)
    ensures ListReleases(s, l1) == ListReleases(s, l2)
  {
    assert Sort(l1) == Sort(l2) by {
      SortListing(s, l1);
      SortListing(s, l2);
      SortedUnique(Sort(l1), Sort(l2));
    }
  }

  /** After a successful deploy exactly one release is listed as ACTIVE:
      the deployed one, whatever its report says. */
  lemma DeployShowsActive(s: Store, name: string, listing: seq<string>)
    requires Consistent(s) && SafeName(name) in s.releases
    requires Lists(s, listing)
    ensures Lists(Deploy(s, name), listing)
    ensures var items := ListReleases(Deploy(s, name), listing);
      forall i :: 0 <= i < |items| ==> (items[i].status == Active <==> items[i].name == SafeName(name))
  {
  }

  /** Deactivating makes every release deletable, including the one that
      was active. */
  lemma DeactivateThenDelete(s: Store, name: string)
    requires SafeName(name) != ""
    ensures Delete(Deactivate(s), name).releases.Keys == s.releases.Keys - {SafeName(name)}
    ensures Delete(Deactivate(s), name).current.None?
  {
  }

  /** A freshly uploaded release is listed as VALID or INVALID according to
      its verdict: it cannot be ACTIVE, since `current` names an existing
      release and the upload's name was free. */
  lemma UploadThenList(s: Store, form: UploadForm, upload: Option<Extracted>, env: Environment,
                       listing: seq<string>)
    requires Consistent(s) && Installs(s, form, upload, env)
    requires Lists(Upload(s, form, upload, env), listing)
    ensures var items := ListReleases(Upload(s, form, upload, env), listing);
      exists i :: 0 <= i < |items| && items[i].name == SafeName(form.releaseName) &&
        items[i].status ==
          (if Releases.Verdict(upload.value.tree, UploadMeta(form, upload.value, env).value, env).ok
           then Status.Valid else Invalid)
  {
    var s' := Upload(s, form, upload, env);
    var items := ListReleases(s', listing);
    var name := SafeName(form.releaseName);
    var meta := UploadMeta(form, upload.value, env).value;
    assert s'.releases[name].report == Some(Releases.Verdict(upload.value.tree, meta, env));
    assert s'.current != Some(name);
    assert name in ItemNames(items);
    var i :| 0 <= i < |items| && ItemNames(items)[i] == name;
    assert items[i].name == name;
  }
}
