/** File naming shared by the submission and material handlers: the filename
    sanitiser, where an upload is stored, the `Content-Disposition` header of
    a download and the upload-root guard in front of every download. */
module FileNames {
  import opened Strings

  /** The characters `sanitizeFilename` keeps: `[a-zA-Z0-9._-]`. */
  predicate IsSafeChar(c: char)
  {
    ('a' <= c <= 'z') || ('A' <= c <= 'Z') || ('0' <= c <= '9') || c == '.' || c == '_' || c == '-'
  }

  predicate IsSafeName(s: string)
  {
    forall k :: 0 <= k < |s| ==> IsSafeChar(s[k])
  }

  /** `name.replace(/[^a-zA-Z0-9._-]/g, "_")`: every character outside the safe
      set becomes `_`, one for one. */
  function Sanitize(name: string): (r: string)
    ensures |r| == |name|
    ensures IsSafeName(r)
    ensures forall k :: 0 <= k < |name| && IsSafeChar(name[k]) ==> r[k] == name[k]
    ensures forall k :: 0 <= k < |name| && !IsSafeChar(name[k]) ==> r[k] == '_'
  {
    if name == [] then []
    else [if IsSafeChar(name[0]) then name[0] else '_'] + Sanitize(name[1..])
  }

  /** A name that is already safe is left as it is; so sanitising is idempotent. */
  lemma SanitizeKeepsSafeNames(name: string)
    requires IsSafeName(name)
    ensures Sanitize(name) == name
  {
  }

  lemma SanitizeIdempotent(name: string)
    ensures Sanitize(Sanitize(name)) == Sanitize(name)
  {
    SanitizeKeepsSafeNames(Sanitize(name));
  }

  /** `path.join(dir, name)` for a name that is a single path segment. */
  function JoinPath(dir: string, name: string): (r: string)
    ensures StartsWith(r, dir + "/")
  {
    dir + "/" + name
  }

  /** `Date.now() + "-" + safe`: the on-disk name of an upload. */
  function StoredName(now: nat, safe: string): string
  {
    NatToString(now) + "-" + safe
  }

  /** `path.basename` on a POSIX path: the last segment, ignoring trailing slashes. */
  function Basename(p: string): (r: string)
    ensures '/' !in r
  {
    if p == [] then []
    else if p[|p| - 1] == '/' then Basename(p[..|p| - 1])
    else LastSegment(p)
  }

  function LastSegment(p: string): (r: string)
    ensures '/' !in r
    ensures '/' !in p ==> r == p
  {
    if p == [] then []
    else if p[|p| - 1] == '/' then []
    else LastSegment(p[..|p| - 1]) + [p[|p| - 1]]
  }

  /** A sanitised name has no slash, so `basename` leaves it alone. */
  lemma BasenameOfSafeName(name: string)
    requires IsSafeName(name)
    ensures Basename(name) == name
  {
    forall k | 0 <= k < |name|
      ensures name[k] != '/'
    {
      assert IsSafeChar(name[k]);
    }
  }

  /** The header a download is served with:
      `attachment; filename="<basename of the recorded name>"`. */
  function ContentDisposition(filename: string): string
  {
    "attachment; filename=\"" + Basename(filename) + "\""
  }

  /** The upload-root guard: `resolvedPath.startsWith(resolvedRoot)`, a test on
      the text of the two resolved paths. */
  predicate PathAllowed(resolvedPath: string, resolvedRoot: string)
  {
    StartsWith(resolvedPath, resolvedRoot)
  }

  /** Everything below the root passes the guard... */
  lemma PathBelowRootAllowed(root: string, rest: string)
    ensures PathAllowed(JoinPath(root, rest), root)
  {
    assert JoinPath(root, rest)[..|root|] == root;
  }

  /** ...and so does every path whose text merely begins with the root's text,
      such as a sibling directory `root + "-old"`: the guard is a string test,
      not a test on path segments. */
  lemma PathWithRootAsTextPrefixAllowed(root: string, suffix: string)
    ensures PathAllowed(root + suffix, root)
  {
    assert (root + suffix)[..|root|] == root;
  }

  /** A path that leaves the root is refused as soon as its text differs from
      the root's within the root's length. */
  lemma PathOutsideRootRefused(resolvedPath: string, root: string, k: nat)
    requires k < |root| && k < |resolvedPath| && resolvedPath[k] != root[k]
    ensures !PathAllowed(resolvedPath, root)
  {
    assert |root| <= |resolvedPath| ==> resolvedPath[..|root|][k] != root[k];
  }

  /** A worked case: with the upload root `/srv/uploads`, the resolved
      traversal target `/etc/passwd` is refused and the sibling
      `/srv/uploads-old/x` is let through. */
  lemma GuardExamples()
    ensures !PathAllowed("/etc/passwd", "/srv/uploads")
    ensures PathAllowed("/srv/uploads-old/x", "/srv/uploads")
  {
    PathOutsideRootRefused("/etc/passwd", "/srv/uploads", 1);
    PathWithRootAsTextPrefixAllowed("/srv/uploads", "-old/x");
  }
}
