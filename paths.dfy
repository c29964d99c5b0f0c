/**
 * The two string operations the program applies to a file name before it
 * looks at the media kind: `os.path.splitext(p)[1]` (POSIX flavour) and
 * `str.lower()`.
 */
module Paths {

  /** `s.rfind(c)`: the last index holding `c`, or -1. */
  function LastIndexOf(s: string, c: char): (i: int)
    ensures -1 <= i < |s|
    ensures i >= 0 ==> s[i] == c
    ensures forall k | i < k < |s| :: s[k] != c
  {
    if s == [] then -1
    else if s[|s| - 1] == c then |s| - 1
    else LastIndexOf(s[..|s| - 1], c)
  }

  /**
   * The extension part of `os.path.splitext(p)`: from the last '.' of the last
   * path component, provided that component has a character other than '.'
   * before it (so ".jpg" and "..jpg" have no extension); otherwise "".
   */
  function Extension(p: string): (e: string)
    ensures e == [] || (e[0] == '.' && |e| <= |p| && e == p[|p| - |e|..])
    ensures forall k | 0 <= k < |e| :: e[k] != '/'
    ensures forall k | 1 <= k < |e| :: e[k] != '.'
    ensures e == [] <==>
      forall k | LastIndexOf(p, '/') < k < |p| && p[k] == '.' ::
        forall j | LastIndexOf(p, '/') < j < k :: p[j] == '.'
    ensures e != [] ==> e == p[LastIndexOf(p, '.')..]
  {
    var sep := LastIndexOf(p, '/');
    var dot := LastIndexOf(p, '.');
    if dot > sep && exists k | sep < k < dot :: p[k] != '.' then p[dot..] else []
  }

  function LowerChar(c: char): char
  {
    if 'A' <= c <= 'Z' then ((c as int) - ('A' as int) + ('a' as int)) as char else c
  }

  /** `s.lower()` on ASCII letters; every other character is kept. */
  function Lower(s: string): (r: string)
    ensures |r| == |s|
    ensures forall i | 0 <= i < |s| :: r[i] == LowerChar(s[i])
  {
    if s == [] then [] else Lower(s[..|s| - 1]) + [LowerChar(s[|s| - 1])]
  }

  lemma {:induction false} LastIndexOfConcat(a: string, b: string, c: char)
    ensures LastIndexOf(a + b, c) ==
      if LastIndexOf(b, c) >= 0 then |a| + LastIndexOf(b, c) else LastIndexOf(a, c)
  {
    if b != [] {
      assert (a + b)[..|a + b| - 1] == a + b[..|b| - 1];
      LastIndexOfConcat(a, b[..|b| - 1], c);
    } else {
      assert a + b == a;
    }
  }

  /** The directory a name is joined to never changes the name's extension. */
  lemma ExtensionIgnoresDirectory(dir: string, name: string)
    requires forall k | 0 <= k < |name| :: name[k] != '/'
    ensures Extension(dir + "/" + name) == Extension(name)
  {
    var head := dir + "/";
    var p := head + name;
    assert p == dir + "/" + name;
    var off := |head|;
    LastIndexOfConcat(head, name, '/');
    LastIndexOfConcat(head, name, '.');
    LastIndexOfConcat(dir, "/", '/');
    var sepP, dotP, dotN := LastIndexOf(p, '/'), LastIndexOf(p, '.'), LastIndexOf(name, '.');
    assert sepP == |dir|;
    if dotN >= 0 {
      assert dotP == off + dotN;
      var hasP := exists k | sepP < k < dotP :: p[k] != '.';
      var hasN := exists k | -1 < k < dotN :: name[k] != '.';
      if hasN {
        var k :| -1 < k < dotN && name[k] != '.';
        assert p[off + k] == name[k];
      }
      if hasP {
        var k :| sepP < k < dotP && p[k] != '.';
        assert p[k] == name[k - off];
      }
      assert p[dotP..] == name[dotN..];
    } else {
      LastIndexOfConcat(dir, "/", '.');
      assert dotP <= sepP;
    }
  }
}
