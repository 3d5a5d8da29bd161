/** The part of Python's `os.path` (POSIX flavour) that the scripts rely on. */
module Paths {

  predicate IsAbsolute(p: string) {
    |p| > 0 && p[0] == '/'
  }

  /**
   * `os.path.join(a, b)` with two arguments: an absolute `b` replaces `a`;
   * otherwise one '/' is inserted unless `a` is empty or already ends in '/'.
   */
  function Join(a: string, b: string): (r: string)
    ensures IsAbsolute(b) ==> r == b
    ensures !IsAbsolute(b) && a != [] && a[|a| - 1] != '/' ==> r == a + "/" + b
    ensures !IsAbsolute(b) && (a == [] || a[|a| - 1] == '/') ==> r == a + b
  {
    if IsAbsolute(b) then b
    else if a == [] || a[|a| - 1] == '/' then a + b
    else a + "/" + b
  }

  /** The joined path ends in `b` and, when `b` is relative, begins with `a`. */
  lemma JoinKeepsBothParts(a: string, b: string)
    ensures |Join(a, b)| >= |b| && Join(a, b)[|Join(a, b)| - |b|..] == b
    ensures !IsAbsolute(b) ==> a <= Join(a, b)
  {
    var r := Join(a, b);
    if !IsAbsolute(b) {
      if a == [] || a[|a| - 1] == '/' {
        assert r[..|a|] == a;
      } else {
        assert r == a + ("/" + b);
        assert r[..|a|] == a;
      }
    }
  }
}
