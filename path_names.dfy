/** `os.path.splitext` on POSIX paths, which both scripts use to derive an
    output file name from a screenshot's name. */
module PathNames {

  /** `s.rfind(c)`: the index of the last occurrence of c in s, or -1. */
  function LastIndexOf(s: string, c: char): (i: int)
    ensures -1 <= i < |s|
    ensures i >= 0 ==> s[i] == c
    ensures forall k :: i < k < |s| ==> s[k] != c
  {
    if |s| == 0 then -1
    else if s[|s| - 1] == c then |s| - 1
    else LastIndexOf(s[..|s| - 1], c)
  }

  /** `os.path.splitext(p)`: the extension is the part from the last '.' of
      the last path component on, unless everything before that '.' in the
      component is dots (".bashrc" has no extension); the root is the rest. */
  function SplitExt(p: string): (parts: (string, string))
    ensures parts.0 + parts.1 == p
    ensures parts.1 == [] || (parts.1[0] == '.' && '.' !in parts.1[1..] && '/' !in parts.1)
  {
    var sep := LastIndexOf(p, '/');
    var dot := LastIndexOf(p, '.');
    if dot > sep && exists k :: sep < k < dot && p[k] != '.' then
      assert p[..dot] + p[dot..] == p;
      assert forall k :: 1 <= k < |p[dot..]| ==> p[dot..][k] == p[dot + k];
      (p[..dot], p[dot..])
    else
      (p, [])
  }

  /** `os.path.splitext(p)[0]`. */
  function Stem(p: string): string {
    SplitExt(p).0
  }

  /** The contract of LastIndexOf pins its result down: it is the index of
      an occurrence of c with no occurrence after it, or -1 if there is none. */
  lemma LastIndexOfIsLast(s: string, c: char, i: int)
    requires (0 <= i < |s| && s[i] == c) || (i == -1 && c !in s)
    requires forall k :: i < k < |s| ==> s[k] != c
    ensures LastIndexOf(s, c) == i
  {
  }

  lemma SplitExtExamples()
    ensures SplitExt("Splash.PNG") == ("Splash", ".PNG")
    ensures SplitExt("archive.tar.gz") == ("archive.tar", ".gz")
    ensures SplitExt(".bashrc") == (".bashrc", "")
  {
    LastIndexOfIsLast("Splash.PNG", '/', -1);
    LastIndexOfIsLast("Splash.PNG", '.', 6);
    assert "Splash.PNG"[0] != '.';
    assert "Splash.PNG"[..6] == "Splash" && "Splash.PNG"[6..] == ".PNG";
    LastIndexOfIsLast("archive.tar.gz", '/', -1);
    LastIndexOfIsLast("archive.tar.gz", '.', 11);
    assert "archive.tar.gz"[0] != '.';
    assert "archive.tar.gz"[..11] == "archive.tar" && "archive.tar.gz"[11..] == ".gz";
    LastIndexOfIsLast(".bashrc", '/', -1);
    LastIndexOfIsLast(".bashrc", '.', 0);
  }

  /** A stem, then a tag with neither '.' nor '/', then an extension (one
      '.' and no further '.' or '/') splits back into the tagged stem and the
      extension. */
  lemma SplitsAtTag(stem: string, tag: string, ext: string)
    requires tag != [] && '.' !in tag && '/' !in tag
    requires ext != [] && ext[0] == '.' && '.' !in ext[1..] && '/' !in ext
    ensures SplitExt(stem + tag + ext) == (stem + tag, ext)
  {
    var p := stem + tag + ext;
    var n := |stem + tag|;
    assert p[n] == '.';
    assert forall k :: n < k < |p| ==> p[k] == ext[1..][k - n - 1];
    LastIndexOfIsLast(p, '.', n);
    var sep := LastIndexOf(stem, '/');
    assert forall k :: |stem| <= k < n ==> p[k] == tag[k - |stem|];
    assert forall k :: n <= k < |p| ==> p[k] == ext[k - n];
    assert forall k :: sep < k < |stem| ==> p[k] == stem[k];
    LastIndexOfIsLast(p, '/', sep);
    assert p[|stem|] == tag[0] != '.';
    assert p[..n] == stem + tag && p[n..] == ext;
  }

  /** `f"{os.path.splitext(name)[0]}{tag}.png"`, the output name both scripts
      derive from a screenshot's name. It never equals the name it came
      from, and splitting it again gives the tagged stem and ".png". */
  function DerivedName(name: string, tag: string): (out: string)
    requires tag != [] && '.' !in tag && '/' !in tag
    ensures out != name
    ensures SplitExt(out) == (Stem(name) + tag, ".png")
  {
    SplitsAtTag(Stem(name), tag, ".png");
    Stem(name) + tag + ".png"
  }

  /** Two names get the same output name only when they have the same stem:
      the derivation loses the extension and nothing else. */
  lemma DerivedNameInjective(a: string, b: string, tag: string)
    requires tag != [] && '.' !in tag && '/' !in tag
    requires DerivedName(a, tag) == DerivedName(b, tag)
    ensures Stem(a) == Stem(b)
  {
    var sa, sb := Stem(a), Stem(b);
    assert sa + tag == SplitExt(DerivedName(a, tag)).0 == SplitExt(DerivedName(b, tag)).0 == sb + tag;
    assert |sa| == |sb|;
    assert sa == (sa + tag)[..|sa|] == (sb + tag)[..|sb|] == sb;
  }

  /** A name made of a base without '.' or '/' and an extension has that
      base as its stem. */
  lemma StemOfSimpleName(base: string, ext: string)
    requires base != [] && '.' !in base && '/' !in base
    requires ext != [] && ext[0] == '.' && '.' !in ext[1..] && '/' !in ext
    ensures Stem(base + ext) == base
  {
    SplitsAtTag([], base, ext);
    assert [] + base + ext == base + ext;
  }
}
