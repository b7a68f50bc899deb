/** Pure-path arithmetic after `pathlib`: the final component of a path,
    its suffix and stem, and `with_suffix`, on paths already in normal form
    (no repeated or trailing separators). */
module Paths {
  import opened Wrappers

  /** Just after the last '/' before position i (0 when there is none). */
  function SlashBefore(p: string, i: nat): (r: nat)
    requires i <= |p|
    ensures r <= i
    ensures r == 0 || p[r - 1] == '/'
    ensures forall k :: r <= k < i ==> p[k] != '/'
    decreases i
  {
    if i == 0 then 0
    else if p[i - 1] == '/' then i
    else SlashBefore(p, i - 1)
  }

  /** Where the final component of p begins. */
  function NameStart(p: string): (r: nat)
    ensures r <= |p|
    ensures r == 0 || p[r - 1] == '/'
    ensures forall k :: r <= k < |p| ==> p[k] != '/'
  {
    SlashBefore(p, |p|)
  }

  /** The start of the final component is determined by those three facts. */
  lemma NameStartUnique(p: string, r: nat)
    requires r <= |p|
    requires r == 0 || p[r - 1] == '/'
    requires forall k :: r <= k < |p| ==> p[k] != '/'
    ensures NameStart(p) == r
  {
  }

  /** `PurePath.name`: the final component; "" for "." and for the root. */
  function Name(p: string): (r: string)
    ensures forall k :: 0 <= k < |r| ==> r[k] != '/'
  {
    var n := p[NameStart(p)..];
    if n == "." then "" else n
  }

  /** The component "." has the empty name, in whatever directory. */
  lemma NameOfDot(dir: string)
    requires |dir| == 0 || dir[|dir| - 1] == '/'
    ensures Name(dir + ".") == ""
  {
    var q := dir + ".";
    assert forall k :: |dir| <= k < |q| ==> q[k] == "."[k - |dir|];
    assert |dir| > 0 ==> q[|dir| - 1] == dir[|dir| - 1];
    NameStartUnique(q, |dir|);
    assert q[|dir|..] == ".";
  }

  /** A path that ends with a separator, such as the root, has the empty
      name. */
  lemma NameOfDirectory(dir: string)
    requires |dir| > 0 && dir[|dir| - 1] == '/'
    ensures Name(dir) == ""
  {
    NameStartUnique(dir, |dir|);
  }

  /** The index of the last '.' before position i (`str.rfind`). */
  function DotBefore(name: string, i: nat): (r: Option<nat>)
    requires i <= |name|
    ensures r.Some? ==> r.value < i && name[r.value] == '.'
    ensures r.Some? ==> forall k :: r.value < k < i ==> name[k] != '.'
    ensures r.None? ==> forall k :: 0 <= k < i ==> name[k] != '.'
    decreases i
  {
    if i == 0 then None
    else if name[i - 1] == '.' then Some(i - 1)
    else DotBefore(name, i - 1)
  }

  /** The index of the last '.' of a name. */
  function LastDot(name: string): (r: Option<nat>)
    ensures r.Some? ==> r.value < |name| && name[r.value] == '.'
    ensures r.Some? ==> forall k :: r.value < k < |name| ==> name[k] != '.'
    ensures r.None? ==> forall k :: 0 <= k < |name| ==> name[k] != '.'
  {
    DotBefore(name, |name|)
  }

  /** `PurePath.suffix`: from the last '.' on, unless that dot opens the
      name or ends it. */
  function Suffix(name: string): (r: string)
    ensures |r| <= |name| && r == name[|name| - |r|..]
    ensures r == "" || (r[0] == '.' && |r| >= 2 && forall k :: 1 <= k < |r| ==> r[k] != '.')
    ensures r != "" <==> exists i :: 0 < i < |name| - 1 && name[i] == '.' && NoDotAfter(name, i)
  {
    match LastDot(name)
    case None => ""
    case Some(i) =>
      if 0 < i < |name| - 1 then
        assert NoDotAfter(name, i);
        name[i..]
      else
        LastDotUnique(name, i);
        ""
  }

  /** No '.' follows position i of name. */
  predicate NoDotAfter(name: string, i: nat) {
    forall k :: i < k < |name| ==> name[k] != '.'
  }

  /** A name has only one last dot. */
  lemma LastDotUnique(name: string, j: nat)
    requires LastDot(name) == Some(j)
    ensures forall i :: 0 <= i < |name| && name[i] == '.' && NoDotAfter(name, i) ==> i == j
  {
  }

  /** A valid suffix argument: a dot and then one or more characters, none
      of them a dot or a separator. */
  predicate ValidSuffix(ext: string) {
    |ext| >= 2 && ext[0] == '.' && forall k :: 1 <= k < |ext| ==> ext[k] != '.' && ext[k] != '/'
  }

  /** `Path.with_suffix(ext)`: the name's suffix replaced by ext, or ext
      appended when there is none; an empty name raises ValueError. */
  function WithSuffix(p: string, ext: string): (r: Result<string, string>)
    ensures r.Failure? <==> Name(p) == ""
  {
    var name := Name(p);
    if name == "" then Failure("has an empty name")
    else Success(p[..NameStart(p)] + Stem(name) + ext)
  }

  /** The name of dir + name, when dir is empty or ends with a separator
      and name has none. */
  lemma NameOfJoin(dir: string, name: string)
    requires |dir| == 0 || dir[|dir| - 1] == '/'
    requires name != "." && forall k :: 0 <= k < |name| ==> name[k] != '/'
    ensures NameStart(dir + name) == |dir|
    ensures Name(dir + name) == name
  {
    var q := dir + name;
    assert forall k :: |dir| <= k < |q| ==> q[k] == name[k - |dir|];
    assert |dir| > 0 ==> q[|dir| - 1] == dir[|dir| - 1];
    NameStartUnique(q, |dir|);
    assert q[|dir|..] == name;
  }

  /** The suffix of stem + ext, for a non-empty stem and a valid ext, is
      ext. */
  lemma SuffixOfJoin(stem: string, ext: string)
    requires ValidSuffix(ext) && |stem| > 0
    ensures Suffix(stem + ext) == ext
  {
    var n := stem + ext;
    assert n[|stem|] == '.';
    assert forall k :: |stem| < k < |n| ==> n[k] == ext[k - |stem|];
    assert LastDot(n) == Some(|stem|);
    assert n[|stem|..] == ext;
  }

  /** with_suffix keeps the parent, keeps the stem, and leaves exactly the
      requested suffix. */
  lemma WithSuffixSuffix(p: string, ext: string)
    requires ValidSuffix(ext) && Name(p) != ""
    ensures var q := WithSuffix(p, ext).value;
      && q[..NameStart(p)] == p[..NameStart(p)]
      && NameStart(q) == NameStart(p)
      && Name(q) == Stem(Name(p)) + ext
      && Suffix(Name(q)) == ext
      && Stem(Name(q)) == Stem(Name(p))
  {
    var ns := NameStart(p);
    var stem := Stem(Name(p));
    var dir := p[..ns];
    assert WithSuffix(p, ext).value == dir + (stem + ext);
    StemOfName(p);
    NoSlashJoin(stem, ext);
    assert ns > 0 ==> dir[ns - 1] == p[ns - 1];
    NameOfJoin(dir, stem + ext);
    assert (dir + (stem + ext))[..ns] == dir;
    SuffixOfJoin(stem, ext);
    assert Stem(stem + ext) + ext == stem + ext;
  }

  /** A name without a suffix is extended: the new name is the old one
      followed by ext. */
  lemma WithSuffixAppends(p: string, ext: string)
    requires ValidSuffix(ext) && Name(p) != "" && Suffix(Name(p)) == ""
    ensures Name(WithSuffix(p, ext).value) == Name(p) + ext
  {
    WithSuffixSuffix(p, ext);
    StemWithoutSuffix(Name(p));
  }

  /** A name without a suffix is its own stem. */
  lemma StemWithoutSuffix(name: string)
    requires Suffix(name) == ""
    ensures Stem(name) == name
  {
    assert Stem(name) + Suffix(name) == name;
    assert |Stem(name)| == |name|;
  }

  /** A name with a suffix has that suffix replaced: the new name is the old
      one with its suffix cut off and ext put in its place. */
  lemma WithSuffixReplacesSuffix(p: string, ext: string)
    requires ValidSuffix(ext) && Name(p) != "" && Suffix(Name(p)) != ""
    ensures var name := Name(p);
      Name(WithSuffix(p, ext).value) == name[..|name| - |Suffix(name)|] + ext
  {
    WithSuffixSuffix(p, ext);
    var name := Name(p);
    assert Stem(name) == (Stem(name) + Suffix(name))[..|Stem(name)|];
  }

  /** `PurePath.stem`: the name without its suffix. */
  function Stem(name: string): (r: string)
    ensures r + Suffix(name) == name
  {
    var r := name[..|name| - |Suffix(name)|];
    assert r + Suffix(name) == name[..|r|] + name[|r|..];
    r
  }

  /** The stem of a non-empty name is non-empty and has no separator. */
  lemma StemOfName(p: string)
    requires Name(p) != ""
    ensures |Stem(Name(p))| > 0
    ensures forall k :: 0 <= k < |Stem(Name(p))| ==> Stem(Name(p))[k] != '/'
  {
    var name := Name(p);
    assert forall k :: 0 <= k < |Stem(name)| ==> Stem(name)[k] == name[k];
  }

  lemma NoSlashJoin(stem: string, ext: string)
    requires forall k :: 0 <= k < |stem| ==> stem[k] != '/'
    requires ValidSuffix(ext)
    ensures forall k :: 0 <= k < |stem + ext| ==> (stem + ext)[k] != '/'
    ensures stem + ext != "."
  {
    var n := stem + ext;
    assert forall k :: |stem| <= k < |n| ==> n[k] == ext[k - |stem|];
    assert |n| >= 2;
  }

  /** A bare file name's suffix is replaced, not extended. */
  lemma WithSuffixReplaces(stem: string, was: string, ext: string)
    requires |stem| > 0 && forall k :: 0 <= k < |stem| ==> stem[k] != '/'
    requires ValidSuffix(was)
    ensures WithSuffix(stem + was, ext) == Success(stem + ext)
  {
    BareJoin(stem, was);
    WithSuffixOfBare(stem, was, ext);
  }

  /** stem + suffix has no separator and is its own name. */
  lemma BareJoin(stem: string, was: string)
    requires |stem| > 0 && forall k :: 0 <= k < |stem| ==> stem[k] != '/'
    requires ValidSuffix(was)
    ensures NameStart(stem + was) == 0 && Name(stem + was) == stem + was
  {
    var p := stem + was;
    NoSlashJoin(stem, was);
    NameOfJoin([], p);
    assert [] + p == p;
  }

  lemma WithSuffixOfBare(stem: string, was: string, ext: string)
    requires |stem| > 0 && NameStart(stem + was) == 0 && Name(stem + was) == stem + was
    requires ValidSuffix(was)
    ensures WithSuffix(stem + was, ext) == Success(stem + ext)
  {
    var p := stem + was;
    SuffixOfJoin(stem, was);
    assert Stem(p) == stem;
    assert p[..0] == [];
    assert WithSuffix(p, ext) == Success([] + stem + ext);
    assert [] + stem + ext == stem + ext;
  }

  /** A name without any dot gets ext appended, in whatever directory. */
  lemma WithSuffixNoDot(dir: string, name: string, ext: string)
    requires |dir| == 0 || dir[|dir| - 1] == '/'
    requires name != "" && name != "."
    requires forall k :: 0 <= k < |name| ==> name[k] != '/' && name[k] != '.'
    ensures WithSuffix(dir + name, ext) == Success(dir + name + ext)
  {
    NameOfJoin(dir, name);
    assert LastDot(name) == None;
    StemWithoutSuffix(name);
    assert (dir + name)[..|dir|] == dir;
  }

  /** The character facts `diagram.tex` rests on. */
  lemma DiagramPieces()
    ensures "diagram" + ".tex" == "diagram.tex"
    ensures "diagram" + ".png" == "diagram.png"
    ensures forall k :: 0 <= k < |"diagram"| ==> "diagram"[k] != '/'
    ensures ValidSuffix(".tex")
  {
  }

  /** `diagram.tex` with suffix `.png` becomes `diagram.png`. */
  lemma DiagramSuffix()
    ensures WithSuffix("diagram.tex", ".png") == Success("diagram.png")
  {
    DiagramPieces();
    WithSuffixReplaces("diagram", ".tex", ".png");
  }

  /** The character facts `out/Makefile` rests on. */
  lemma MakefilePieces()
    ensures "out/" + "Makefile" == "out/Makefile"
    ensures "out/" + "Makefile" + ".svg" == "out/Makefile.svg"
    ensures forall k :: 0 <= k < |"Makefile"| ==> "Makefile"[k] != '/' && "Makefile"[k] != '.'
  {
  }

  /** `out/Makefile`, which has no suffix, with suffix `.svg` becomes
      `out/Makefile.svg`. */
  lemma MakefileSuffix()
    ensures WithSuffix("out/Makefile", ".svg") == Success("out/Makefile.svg")
  {
    MakefilePieces();
    WithSuffixNoDot("out/", "Makefile", ".svg");
  }
}
