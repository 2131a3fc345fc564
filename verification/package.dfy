/**
 * Relationship targets to package part names. A relationship target in
 * the `word/_rels` parts is either absolute within the package (a leading '/')
 * or relative to the `word/` directory; `src/docx.rs` turns both into the
 * zip entry name it opens, for embedded fonts and for images alike.
 */
module Package {

  /** The directory that relative targets of the main document part are resolved against. */
  const WordDir: string := "word/"

  /**
   * `target.strip_prefix('/')`, else `format!("word/{}", target)`: exactly
   * one leading '/' is removed from an absolute target, and a relative one
   * is placed under `word/`.
   */
  function ZipPath(target: string): (path: string)
    ensures |target| > 0 && target[0] == '/' ==> [target[0]] + path == target
    ensures !(|target| > 0 && target[0] == '/') ==> |WordDir| <= |path| && path[..|WordDir|] == WordDir && path[|WordDir|..] == target
  {
    if |target| > 0 && target[0] == '/' then target[1..] else WordDir + target
  }

  predicate IsAbsolute(target: string) {
    |target| > 0 && target[0] == '/'
  }

  /** An absolute target under `/word/` and the relative target it spells name the same part. */
  lemma AbsoluteMatchesRelative(rel: string)
    ensures !IsAbsolute(rel) ==> ZipPath("/" + WordDir + rel) == ZipPath(rel)
  {
    assert ("/" + WordDir + rel)[1..] == WordDir + rel;
  }

  /** Distinct targets of the same kind never collide. */
  lemma ZipPathInjective(a: string, b: string)
    requires IsAbsolute(a) == IsAbsolute(b)
    requires ZipPath(a) == ZipPath(b)
    ensures a == b
  {
    if IsAbsolute(a) {
      assert a == [a[0]] + a[1..] && b == [b[0]] + b[1..];
    } else {
      assert a == (WordDir + a)[|WordDir|..];
      assert b == (WordDir + b)[|WordDir|..];
    }
  }

  /** Only one slash is stripped: "//x" opens "/x". */
  lemma OneSlashStripped(rest: string)
    ensures ZipPath("/" + rest) == rest
  {
    assert ("/" + rest)[1..] == rest;
  }
}
