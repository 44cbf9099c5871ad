/** Choosing a file name that does not collide with the files already in a
    folder (`FileHelper.getNonCollidingFileName`), and the text of a
    possibly absent uri (`FileHelper.uri2String`). The folder's contents
    are a finite set of names. */
module FileNames {
  import opened Base
  import opened Numbers

  /** The uri schemes the naming rule distinguishes. */
  datatype Scheme = ContentScheme | FileScheme | OtherScheme(name: string)

  /** A uri: its scheme, its path, and its full text. */
  datatype Uri = Uri(scheme: Scheme, path: string, text: string)

  /** The extension with a leading dot, added when it is missing. */
  function NormalizeExtension(extension: string): (r: string)
    ensures |r| > 0 && r[0] == '.'
    ensures |extension| > 0 && extension[0] == '.' ==> r == extension
    ensures !(|extension| > 0 && extension[0] == '.') ==> r == "." + extension
  {
    if |extension| > 0 && extension[0] == '.' then extension else "." + extension
  }

  /** The `k`-th name tried: the base name itself, then `base-1`, `base-2`,
      and so on, each followed by the extension. */
  function Candidate(baseName: string, k: nat, ext: string): (r: string)
    ensures |r| >= |baseName| + |ext|
    ensures r[..|baseName|] == baseName && r[|r| - |ext|..] == ext
  {
    if k == 0 then baseName + ext else baseName + "-" + IntToString(k) + ext
  }

  /** Different attempts try different names. */
  lemma CandidateInjective(baseName: string, k: nat, j: nat, ext: string)
    requires k != j
    ensures Candidate(baseName, k, ext) != Candidate(baseName, j, ext)
  {
    var a := Candidate(baseName, k, ext);
    var b := Candidate(baseName, j, ext);
    if k > 0 && j > 0 && |a| == |b| {
      var dk := IntToString(k);
      var dj := IntToString(j);
      assert |dk| == |dj|;
      assert a[|baseName| + 1..|baseName| + 1 + |dk|] == dk;
      assert b[|baseName| + 1..|baseName| + 1 + |dj|] == dj;
      IntToStringInjective(k, j);
    }
  }

  /** The names of the first `n` attempts. */
  function Tried(baseName: string, n: nat, ext: string): (r: set<string>)
    ensures forall j :: 0 <= j < n ==> Candidate(baseName, j, ext) in r
  {
    if n == 0 then {} else Tried(baseName, n - 1, ext) + {Candidate(baseName, n - 1, ext)}
  }

  /** The first `n` attempts try `n` different names. */
  lemma {:induction false} TriedSize(baseName: string, n: nat, ext: string)
    ensures |Tried(baseName, n, ext)| == n
    ensures forall m :: m >= n ==> Candidate(baseName, m, ext) !in Tried(baseName, n, ext)
  {
    if n > 0 {
      TriedSize(baseName, n - 1, ext);
      forall m | m >= n
        ensures Candidate(baseName, m, ext) !in Tried(baseName, n, ext)
      {
        CandidateInjective(baseName, m, n - 1, ext);
      }
    }
  }

  /** `name` is the first attempt not among the existing names. */
  ghost predicate FirstFree(existing: set<string>, baseName: string, ext: string, name: string) {
    && name !in existing
    && exists k: nat :: (name == Candidate(baseName, k, ext)
      && forall j :: 0 <= j < k ==> Candidate(baseName, j, ext) in existing)
  }

  /** `getNonCollidingFileName`. A null extension throws. For a content or
      file uri the result is the first of `base`, `base-1`, `base-2`, ...
      (with the extension) not among the existing names; for any other
      scheme it is `base` with the extension, unchecked. */
  method GetNonCollidingFileName(scheme: Scheme, existing: set<string>, baseName: string, extension: Option<string>)
    returns (r: Result<string>)
    ensures r.Failure? <==> extension.None?
    ensures r.Failure? ==> r.error == NullPointerException
    ensures r.Success? && !(scheme.ContentScheme? || scheme.FileScheme?) ==>
      r.value == baseName + NormalizeExtension(extension.value)
    ensures r.Success? && (scheme.ContentScheme? || scheme.FileScheme?) ==>
      FirstFree(existing, baseName, NormalizeExtension(extension.value), r.value)
  {
    if extension.None? {
      return Failure(NullPointerException);
    }
    var ext := NormalizeExtension(extension.value);
    var tempName := baseName;
    if scheme.ContentScheme? || scheme.FileScheme? {
      var tries := 1;
      TriedSize(baseName, 0, ext);
      while tempName + ext in existing
        invariant tries >= 1
        invariant tempName + ext == Candidate(baseName, tries - 1, ext)
        invariant Tried(baseName, tries - 1, ext) <= existing
        invariant |Tried(baseName, tries - 1, ext)| == tries - 1
        decreases |existing| - (tries - 1)
      {
        TriedSize(baseName, tries, ext);
        assert Tried(baseName, tries, ext) <= existing;
        assert |existing| >= tries by {
          SubsetSize(Tried(baseName, tries, ext), existing);
        }
        tempName := baseName + "-" + IntToString(tries);
        assert tempName + ext == Candidate(baseName, tries, ext);
        tries := tries + 1;
      }
      assert forall j :: 0 <= j < tries - 1 ==> Candidate(baseName, j, ext) in existing;
      assert FirstFree(existing, baseName, ext, tempName + ext);
    }
    return Success(tempName + ext);
  }

  /** A subset is no larger than its superset. */
  lemma SubsetSize(a: set<string>, b: set<string>)
    requires a <= b
    ensures |a| <= |b|
  {
    assert b == a + (b - a);
  }

  /** The first free name is the base name itself when that is free, and
      always starts with the base name and ends with the extension. */
  lemma FirstFreeShape(existing: set<string>, baseName: string, ext: string, name: string)
    requires FirstFree(existing, baseName, ext, name)
    ensures baseName + ext !in existing ==> name == baseName + ext
    ensures name[..|baseName|] == baseName
    ensures name[|name| - |ext|..] == ext
  {
    var k: nat :| name == Candidate(baseName, k, ext)
      && forall j :: 0 <= j < k ==> Candidate(baseName, j, ext) in existing;
    if k > 0 {
      assert Candidate(baseName, 0, ext) in existing;
    }
  }

  /** Two names that are both the first free one are the same name: the
      rule picks exactly one. */
  lemma FirstFreeUnique(existing: set<string>, baseName: string, ext: string, a: string, b: string)
    requires FirstFree(existing, baseName, ext, a) && FirstFree(existing, baseName, ext, b)
    ensures a == b
  {
    var k: nat :| a == Candidate(baseName, k, ext)
      && forall j :: 0 <= j < k ==> Candidate(baseName, j, ext) in existing;
    var m: nat :| b == Candidate(baseName, m, ext)
      && forall j :: 0 <= j < m ==> Candidate(baseName, j, ext) in existing;
    if m < k {
      assert Candidate(baseName, m, ext) in existing;
    }
  }

  /** `uri2String`: the empty text for a null uri, the absolute path of a
      file uri, and the uri's own text otherwise. */
  function Uri2String(uri: Option<Uri>, absolutePath: string -> string): (r: string)
    ensures uri.None? ==> r == ""
    ensures uri.Some? && uri.value.scheme.FileScheme? ==> r == absolutePath(uri.value.path)
    ensures uri.Some? && !uri.value.scheme.FileScheme? ==> r == uri.value.text
  {
    match uri
    case None => ""
    case Some(u) => if u.scheme.FileScheme? then absolutePath(u.path) else u.text
  }

  /** The text of a file uri depends on its path alone, and the text of any
      other uri on its own text alone. */
  lemma Uri2StringFrame(u: Uri, v: Uri, absolutePath: string -> string)
    ensures u.scheme.FileScheme? && v.scheme.FileScheme? && u.path == v.path ==>
      Uri2String(Some(u), absolutePath) == Uri2String(Some(v), absolutePath)
    ensures !u.scheme.FileScheme? && !v.scheme.FileScheme? && u.text == v.text ==>
      Uri2String(Some(u), absolutePath) == Uri2String(Some(v), absolutePath)
  {
  }
}
