/**
 * FilterFileName: does the base name of a path contain every keyword?
 * The base name is that of Go's filepath.Base with '/' as the separator.
 */
module Files {
  import opened GoStrings

  predicate IsSlash(c: char)
  {
    c == '/'
  }

  /**
   * filepath.Base: "." for the empty path; otherwise the last element after
   * trailing slashes are dropped, or "/" when nothing but slashes is left.
   */
  function Base(path: string): (r: string)
    ensures r != []
    ensures r == "/" || '/' !in r
  {
    if path == [] then "."
    else
      var trimmed := TrimRightBy(path, IsSlash);
      var i := LastIndexOf(trimmed, '/');
      var last := trimmed[i + 1..];
      if last == [] then "/" else last
  }

  /** `n` slashes. */
  function Slashes(n: nat): (r: string)
    ensures |r| == n && forall i :: 0 <= i < n ==> r[i] == '/'
  {
    if n == 0 then [] else Slashes(n - 1) + "/"
  }

  /** Trailing slashes are dropped up to the last character that is not one. */
  lemma {:induction false} TrimSlashes(s: string, n: nat)
    requires s == [] || s[|s| - 1] != '/'
    ensures TrimRightBy(s + Slashes(n), IsSlash) == s
  {
    if n > 0 {
      var t := s + Slashes(n);
      assert t[..|t| - 1] == s + Slashes(n - 1);
      TrimSlashes(s, n - 1);
    } else {
      assert s + Slashes(0) == s;
    }
  }

  /** The base name of a directory, a slash, a name and any trailing slashes is that name. */
  lemma BaseOfPath(dir: string, name: string, n: nat)
    requires name != [] && '/' !in name
    ensures Base(dir + "/" + name + Slashes(n)) == name
  {
    var s := dir + "/" + name;
    TrimSlashes(s, n);
    assert s[|s| - 1] == name[|name| - 1];
    assert s == (dir + "/") + name;
    assert s[|dir|] == '/';
    assert s[|dir| + 1..] == name;
    assert LastIndexOf(s, '/') == |dir|;
  }

  /** A bare name, with or without trailing slashes, is its own base name. */
  lemma BaseOfName(name: string, n: nat)
    requires name != [] && '/' !in name
    ensures Base(name + Slashes(n)) == name
  {
    TrimSlashes(name, n);
  }

  /** A path of nothing but slashes has the base name "/", and the empty path has ".". */
  lemma BaseOfRoot(n: nat)
    ensures Base(Slashes(n)) == if n == 0 then "." else "/"
  {
    if n > 0 {
      TrimSlashes([], n);
      assert [] + Slashes(n) == Slashes(n);
    }
  }

  /**
   * FilterFileName: true when the base name of `fullPath` contains every
   * keyword, and so when there are none; every keyword is checked even after
   * one is missing.
   */
  method FilterFileName(fullPath: string, keywords: seq<string>) returns (ok: bool)
    ensures ok <==> forall k :: k in keywords ==> Contains(Base(fullPath), k)
  {
    var filename := Base(fullPath);
    ok := true;
    if |keywords| == 0 {
      return ok;
    }
    for i := 0 to |keywords|
      invariant ok <==> forall j :: 0 <= j < i ==> Contains(filename, keywords[j])
    {
      if Contains(filename, keywords[i]) {
        if ok != false {
          ok := true;
        }
      } else {
        ok := false;
      }
    }
  }
}
