/** POSIX path handling used to name the converted files: os.path.basename and
    os.path.splitext, as the posixpath module defines them. */
module Paths {
  import opened Text

  /** Python's s.rfind(c) for one character: the index of its last occurrence, or -1. */
  function RFind(s: string, c: char): (r: int)
    ensures -1 <= r < |s|
    ensures r >= 0 ==> s[r] == c
    ensures forall j :: r < j < |s| ==> s[j] != c
    decreases |s|
  {
    if |s| == 0 then -1
    else if s[|s| - 1] == c then |s| - 1
    else RFind(s[..|s| - 1], c)
  }

  /** The contract of RFind determines its value. */
  lemma RFindUnique(s: string, c: char, r: int)
    requires -1 <= r < |s| && (r >= 0 ==> s[r] == c)
    requires forall j :: r < j < |s| ==> s[j] != c
    ensures RFind(s, c) == r
  {
  }

  /** os.path.basename: the text after the last '/'. The result holds no '/' and is
      the longest suffix of the path that holds none. */
  function Basename(p: string): (b: string)
    ensures Lacks(b, '/') && |b| <= |p|
    ensures |b| < |p| ==> p[|p| - |b| - 1] == '/'
  {
    p[RFind(p, '/') + 1..]
  }

  /** The basename is the path's suffix of that length. */
  lemma BasenameIsSuffix(p: string)
    ensures EndsWith(p, Basename(p))
  {
  }

  /** rfind over a concatenation looks in the second part first. */
  lemma {:induction false} RFindAppend(a: string, b: string, c: char)
    ensures RFind(a + b, c) == if RFind(b, c) >= 0 then |a| + RFind(b, c) else RFind(a, c)
    decreases |b|
  {
    if b == [] {
      assert a + b == a;
    } else if b[|b| - 1] != c {
      assert (a + b)[..|a + b| - 1] == a + b[..|b| - 1];
      RFindAppend(a, b[..|b| - 1], c);
    }
  }

  /** A directory prefix never reaches the basename. */
  lemma BasenameDropsDirectory(dir: string, name: string)
    ensures Basename(dir + "/" + name) == Basename(name)
  {
    var a := dir + "/";
    var p := a + name;
    assert dir + "/" + name == p;
    RFindAppend(a, name, '/');
    RFindUnique(a, '/', |dir|);
    var r := RFind(name, '/');
    assert RFind(p, '/') == |a| + r;
    assert p[|a| + r + 1..] == name[r + 1..];
    assert Basename(p) == p[|a| + r + 1..];
  }

  /** True when p[lo..hi] holds some character other than '.'. */
  predicate HasNonDot(p: string, lo: int, hi: int)
    requires 0 <= lo && hi <= |p|
  {
    exists j :: lo <= j < hi && p[j] != '.'
  }

  /** os.path.splitext: (root, ext) where ext is the text from the last '.' of the
      last path component, provided that dot is preceded in the component by some
      character other than '.'; otherwise ext is empty. Leading dots of a name such
      as ".bashrc" therefore do not start an extension. */
  function SplitExt(p: string): (r: (string, string))
    ensures r.0 + r.1 == p
    ensures r.1 == "" || (r.1[0] == '.' && Lacks(r.1[1..], '.') && Lacks(r.1, '/'))
  {
    var sep := RFind(p, '/');
    var dot := RFind(p, '.');
    if dot > sep && HasNonDot(p, sep + 1, dot) then (p[..dot], p[dot..]) else (p, "")
  }

  /** When splitext finds an extension: its dot is the last '.' of the last path
      component and that component holds a character other than '.' before it. When
      it finds none, every '.' of the last component has only dots before it there. */
  lemma SplitExtWhen(p: string)
    ensures var r := SplitExt(p);
      var start := RFind(p, '/') + 1;
      (r.1 != "" ==> HasNonDot(p, start, |r.0|)) &&
      (r.1 == "" ==> forall j :: start <= j < |p| && p[j] == '.' ==> !HasNonDot(p, start, j))
  {
  }

  /** The name an archive member is written under: splitext(basename(name))[0] + ".pdf". */
  function OutputName(filename: string): (n: string)
    ensures EndsWith(n, ".pdf")
  {
    SplitExt(Basename(filename)).0 + ".pdf"
  }

  /** The output name ends in ".pdf" and holds no '/': no directory part survives. */
  lemma OutputNameFlat(filename: string)
    ensures EndsWith(OutputName(filename), ".pdf") && Lacks(OutputName(filename), '/')
  {
    var b := Basename(filename);
    var r := SplitExt(b);
    var n := r.0 + ".pdf";
    assert n[|n| - 4..] == ".pdf";
    LacksAppend(r.0, r.1, '/');
    LacksAppend(r.0, ".pdf", '/');
  }

  /** The output name, without ".pdf", is the member's basename with at most one
      extension (a '.' and no further '.') taken off. */
  lemma OutputNameStem(filename: string)
    ensures var n := OutputName(filename);
      var b := Basename(filename);
      StartsWith(b, n[..|n| - 4]) &&
      (var ext := b[|n| - 4..]; ext == "" || (ext[0] == '.' && Lacks(ext[1..], '.')))
  {
  }

  /** A name with no '/' is its own basename. */
  lemma BasenameOfPlain(name: string)
    requires Lacks(name, '/')
    ensures Basename(name) == name
  {
  }

  /** For a name with no '/' whose last '.' is preceded by some character other than
      '.', the extension starts at that last '.'. */
  lemma SplitExtOfPlain(name: string, k: nat)
    requires Lacks(name, '/') && k < |name| && HasNonDot(name, 0, k)
    requires name[k] == '.' && forall j :: k < j < |name| ==> name[j] != '.'
    ensures SplitExt(name) == (name[..k], name[k..])
  {
    RFindUnique(name, '/', -1);
    RFindUnique(name, '.', k);
  }

  /** A member whose name holds no '/' is its own basename, wherever it sits. */
  lemma BasenameOfMember(dir: string, name: string)
    requires Lacks(name, '/')
    ensures Basename(dir + "/" + name) == name
  {
    BasenameDropsDirectory(dir, name);
    BasenameOfPlain(name);
  }

  /** A name made of a stem holding some character other than '.', a '.', and an
      extension holding no '.': splitext cuts at that '.'. */
  lemma SplitExtOfStem(stem: string, ext: string)
    requires Lacks(stem, '/') && HasNonDot(stem, 0, |stem|)
    requires Lacks(ext, '/') && Lacks(ext, '.')
    ensures SplitExt(stem + "." + ext) == (stem, "." + ext)
  {
    var b := stem + "." + ext;
    assert forall j :: |stem| < j < |b| ==> b[j] == ext[j - |stem| - 1];
    assert b[|stem|] == '.';
    var w :| 0 <= w < |stem| && stem[w] != '.';
    assert b[w] == stem[w];
    LacksAppend(stem, ".", '/');
    LacksAppend(stem + ".", ext, '/');
    SplitExtOfPlain(b, |stem|);
    assert b[..|stem|] == stem && b[|stem|..] == "." + ext;
  }

  /** Only the last extension goes: a member "dir/stem.ext" is written as
      "stem.pdf", whatever dots the stem holds (leading ones included, as in
      ".a.msg") provided it is not dots only, and whatever the case of ext. */
  lemma OutputNameReplacesExtension(dir: string, stem: string, ext: string)
    requires Lacks(stem, '/') && HasNonDot(stem, 0, |stem|)
    requires Lacks(ext, '/') && Lacks(ext, '.')
    ensures OutputName(dir + "/" + stem + "." + ext) == stem + ".pdf"
  {
    var b := stem + "." + ext;
    assert dir + "/" + stem + "." + ext == dir + "/" + b;
    LacksAppend(stem, ".", '/');
    LacksAppend(stem + ".", ext, '/');
    BasenameOfMember(dir, b);
    SplitExtOfStem(stem, ext);
  }

  /** A name that is dots followed by text without dots has no extension. */
  lemma SplitExtOfLeadingDots(dots: string, tail: string)
    requires forall i :: 0 <= i < |dots| ==> dots[i] == '.'
    requires Lacks(tail, '/') && Lacks(tail, '.')
    ensures SplitExt(dots + tail) == (dots + tail, "")
  {
  }

  /** Dots that lead a name do not start an extension: "dir/.msg" is written as
      ".msg.pdf". */
  lemma OutputNameLeadingDots(dir: string, dots: string, tail: string)
    requires forall i :: 0 <= i < |dots| ==> dots[i] == '.'
    requires Lacks(tail, '/') && Lacks(tail, '.')
    ensures OutputName(dir + "/" + dots + tail) == dots + tail + ".pdf"
  {
    var b := dots + tail;
    assert dir + "/" + dots + tail == dir + "/" + b;
    assert Lacks(dots, '/');
    LacksAppend(dots, tail, '/');
    BasenameOfMember(dir, b);
    SplitExtOfLeadingDots(dots, tail);
  }
}
