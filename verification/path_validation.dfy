/** IsValidFolderPath (FormQRtoCSV.cs): is a configured destination a
    well-formed absolute folder path, local (drive-rooted) or UNC? The
    checks are lexical plus one normalisation call; nothing touches the disk
    and nothing throws out of it. */
module PathValidation {
  import opened Wrappers
  import opened Text
  import opened Paths

  /** path.IndexOfAny(cs) >= 0 */
  predicate ContainsAny(s: string, cs: set<char>) {
    exists k :: 0 <= k < |s| && s[k] in cs
  }

  /** fullPath.StartsWith(@"\\") */
  predicate IsUnc(full: string) {
    |full| >= 2 && full[0] == DirectorySeparator && full[1] == DirectorySeparator
  }

  predicate IsSeparator(c: char) {
    c == DirectorySeparator
  }

  /** fullPath.TrimStart('\\'): a UNC path with its leading separators cut off. */
  function UncBody(full: string): string {
    TrimStart(full, IsSeparator)
  }

  /** The UNC branch: split the body on the separator, keeping empty pieces;
      at least two pieces (server and share) and none blank. */
  predicate UncPartsValid(full: string) {
    var parts := Split(UncBody(full), DirectorySeparator);
    |parts| >= 2 && forall k :: 0 <= k < |parts| ==> !IsBlank(parts[k])
  }

  /** The local branch: split on the separator with empty pieces removed;
      no remaining piece blank. */
  predicate LocalPartsValid(full: string) {
    var parts := SplitRemoveEmpty(full, DirectorySeparator);
    forall k :: 0 <= k < |parts| ==> !IsBlank(parts[k])
  }

  /** The gates every accepted path passes before its shape is looked at:
      not blank, no invalid character, normalisation succeeds, the normalised
      path has a root, and the path as written (not the normalised one) is rooted. */
  predicate PassesGates(prims: PathPrimitives, path: string) {
    && !IsBlank(path)
    && !ContainsAny(path, prims.invalidPathChars)
    && prims.getFullPath(path).Some?
    && prims.getPathRoot(prims.getFullPath(path).value) != ""
    && prims.isPathRooted(path)
  }

  /** Reference shape of an accepted UNC path, stated on positions: after the
      leading separators there is a separator (server and share), and no
      maximal separator-free run is empty or white space only. */
  ghost predicate UncShapeOk(full: string) {
    var body := UncBody(full);
    && DirectorySeparator in body
    && forall i, j :: IsComponent(body, DirectorySeparator, i, j) ==> !IsBlank(body[i..j])
  }

  /** Reference shape of an accepted local path: no maximal separator-free
      run is non-empty yet white space only. Empty runs (doubled or trailing
      separators) do not matter. */
  ghost predicate LocalShapeOk(full: string) {
    forall i, j :: IsComponent(full, DirectorySeparator, i, j) && i < j ==> !IsBlank(full[i..j])
  }

  /** The shape a normalised path must have: UNC when it starts with two
      separators, local otherwise. */
  ghost predicate ShapeOk(full: string) {
    if IsUnc(full) then UncShapeOk(full) else LocalShapeOk(full)
  }

  /** FormQRtoCSV.IsValidFolderPath. It accepts exactly the paths that pass
      the gates and whose normalised form has the right shape. */
  function IsValidFolderPath(prims: PathPrimitives, path: string): (r: bool)
    ensures IsBlank(path) ==> !r
    ensures ContainsAny(path, prims.invalidPathChars) ==> !r
    ensures prims.getFullPath(path).None? ==> !r
    ensures r <==> PassesGates(prims, path) && ShapeOk(prims.getFullPath(path).value)
  {
    if IsBlank(path) then false
    else if ContainsAny(path, prims.invalidPathChars) then false
    else
      match prims.getFullPath(path)
      case None => false
      case Some(full) =>
        if prims.getPathRoot(full) == "" then false
        else if !prims.isPathRooted(path) then false
        else if IsUnc(full) then
          UncPartsMatchShape(full);
          UncPartsValid(full)
        else
          LocalPartsMatchShape(full);
          LocalPartsValid(full)
  }

  /** The UNC split check and the positional UNC shape agree. */
  lemma UncPartsMatchShape(full: string)
    ensures UncPartsValid(full) <==> UncShapeOk(full)
  {
    var body := UncBody(full);
    var parts := Split(body, DirectorySeparator);
    SplitPieces(body, DirectorySeparator);
    if UncPartsValid(full) {
      forall i, j | IsComponent(body, DirectorySeparator, i, j)
        ensures !IsBlank(body[i..j])
      {
        SplitPartsAreComponents(body, DirectorySeparator, body[i..j]);
      }
    }
    if UncShapeOk(full) {
      forall k | 0 <= k < |parts|
        ensures !IsBlank(parts[k])
      {
        SplitPartsAreComponents(body, DirectorySeparator, parts[k]);
      }
    }
  }

  /** The local split check and the positional local shape agree. */
  lemma LocalPartsMatchShape(full: string)
    ensures LocalPartsValid(full) <==> LocalShapeOk(full)
  {
    var parts := SplitRemoveEmpty(full, DirectorySeparator);
    if LocalPartsValid(full) {
      forall i, j | IsComponent(full, DirectorySeparator, i, j) && i < j
        ensures !IsBlank(full[i..j])
      {
        SplitPartsAreComponents(full, DirectorySeparator, full[i..j]);
        assert full[i..j] in parts;
      }
    }
    if LocalShapeOk(full) {
      forall k | 0 <= k < |parts|
        ensures !IsBlank(parts[k])
      {
        assert parts[k] in Split(full, DirectorySeparator) && parts[k] != [];
        SplitPartsAreComponents(full, DirectorySeparator, parts[k]);
      }
    }
  }

  /** `\\server` is rejected: a UNC path needs a share after its server. */
  lemma UncWithoutShareRejected(prims: PathPrimitives, path: string, full: string)
    requires prims.getFullPath(path) == Some(full) && IsUnc(full)
    requires DirectorySeparator !in UncBody(full)
    ensures !IsValidFolderPath(prims, path)
  {
  }

  /** A UNC path ending in a separator is rejected: its last component is empty. */
  lemma UncTrailingSeparatorRejected(prims: PathPrimitives, path: string, full: string)
    requires prims.getFullPath(path) == Some(full) && IsUnc(full)
    requires full[|full| - 1] == DirectorySeparator
    ensures !IsValidFolderPath(prims, path)
  {
    var body := UncBody(full);
    if body != [] {
      assert body[|body| - 1] == full[|full| - 1];
      assert IsComponent(body, DirectorySeparator, |body|, |body|);
      assert IsBlank(body[|body|..|body|]);
    }
  }

  /** On the local branch empty components never lead to rejection: a rooted
      local path with no white space in it is accepted however its separators
      are doubled or trailing. */
  lemma LocalWithoutWhiteSpaceAccepted(prims: PathPrimitives, path: string, full: string)
    requires PassesGates(prims, path)
    requires prims.getFullPath(path) == Some(full) && !IsUnc(full)
    requires forall k :: 0 <= k < |full| ==> !IsWhiteSpace(full[k])
    ensures IsValidFolderPath(prims, path)
  {
    forall i, j | IsComponent(full, DirectorySeparator, i, j) && i < j
      ensures !IsBlank(full[i..j])
    {
      assert full[i..j][0] == full[i];
    }
  }

  /** A local path is rejected when one of its components is white space only. */
  lemma LocalBlankComponentRejected(prims: PathPrimitives, path: string, full: string, i: int, j: int)
    requires prims.getFullPath(path) == Some(full) && !IsUnc(full)
    requires IsComponent(full, DirectorySeparator, i, j) && i < j && IsBlank(full[i..j])
    ensures !IsValidFolderPath(prims, path)
  {
  }

  /** `\\server\share` is accepted, for any server and share names that are
      not blank and hold no separator, when the platform leaves the path as it
      is, sees a root in it and finds no invalid character. */
  lemma UncServerShareAccepted(prims: PathPrimitives, server: string, share: string, full: string)
    requires !IsBlank(server) && !IsBlank(share)
    requires DirectorySeparator !in server && DirectorySeparator !in share
    requires full == [DirectorySeparator, DirectorySeparator] + (server + [DirectorySeparator] + share)
    requires prims.getFullPath(full) == Some(full)
    requires prims.getPathRoot(full) != ""
    requires prims.isPathRooted(full)
    requires !ContainsAny(full, prims.invalidPathChars)
    ensures IsValidFolderPath(prims, full)
  {
    assert ShapeOk(full) by {
      UncServerSharePartsValid(server, share, full);
      UncPartsMatchShape(full);
    }
    assert !IsBlank(full) by {
      InfixNotBlank([DirectorySeparator, DirectorySeparator], server, [DirectorySeparator] + share, full);
    }
    assert PassesGates(prims, full);
  }

  /** A string with a non-blank piece inside it is not blank. */
  lemma InfixNotBlank(a: string, x: string, b: string, s: string)
    requires s == a + x + b && !IsBlank(x)
    ensures !IsBlank(s)
  {
    var k :| 0 <= k < |x| && !IsWhiteSpace(x[k]);
    assert s[|a| + k] == x[k];
  }

  lemma UncServerSharePartsValid(server: string, share: string, full: string)
    requires !IsBlank(server) && !IsBlank(share)
    requires DirectorySeparator !in server && DirectorySeparator !in share
    requires full == [DirectorySeparator, DirectorySeparator] + (server + [DirectorySeparator] + share)
    ensures IsUnc(full) && UncPartsValid(full)
  {
    var body := server + [DirectorySeparator] + share;
    assert server[0] != DirectorySeparator;
    TrimStartPrefix([DirectorySeparator, DirectorySeparator], body, IsSeparator);
    assert UncBody(full) == body;
    assert Join([server, share], DirectorySeparator) == body;
    SplitUnique(body, DirectorySeparator, [server, share]);
    assert Split(UncBody(full), DirectorySeparator) == [server, share];
  }
}
