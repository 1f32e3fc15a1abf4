/** File paths as `pathlib` splits them: the directory part and the final
    component, whose `stem` and `suffix` determine the name of the patched copy
    written next to the original (`<stem>_new<suffix>`). */
module Paths {

  /** A path: `dir` is everything up to and including the last `/` (empty for
      a bare file name) and `name` is the final component. */
  datatype Path = Path(dir: string, name: string)

  /** The path as text. */
  function Render(p: Path): string
  {
    p.dir + p.name
  }

  /** Index of the last `c` in `s`, or -1 (Python's `str.rfind`). */
  function LastIndexOf(s: string, c: char): (r: int)
    ensures -1 <= r < |s|
    ensures r >= 0 ==> s[r] == c
    ensures forall i :: r < i < |s| ==> s[i] != c
  {
    if s == [] then -1
    else if s[|s| - 1] == c then |s| - 1
    else LastIndexOf(s[..|s| - 1], c)
  }

  /** A directory part is empty or ends with a separator. */
  predicate IsDir(d: string)
  {
    d == [] || d[|d| - 1] == '/'
  }

  /** A well-formed path: the final component holds no separator. */
  predicate WellFormed(p: Path)
  {
    IsDir(p.dir) && forall j :: 0 <= j < |p.name| ==> p.name[j] != '/'
  }

  /** `Path(s)`: split the text at its last separator. */
  function Parse(s: string): (p: Path)
    ensures WellFormed(p)
    ensures Render(p) == s
  {
    var i := LastIndexOf(s, '/');
    var dir, name := s[..i + 1], s[i + 1..];
    assert forall j :: 0 <= j < |name| ==> name[j] == s[i + 1 + j];
    assert dir + name == s;
    assert dir != [] ==> dir[|dir| - 1] == s[i];
    Path(dir, name)
  }

  /** Parsing undoes rendering: a well-formed path survives the round trip. */
  lemma ParseRender(p: Path)
    requires WellFormed(p)
    ensures Parse(Render(p)) == p
  {
    var s := Render(p);
    var i := LastIndexOf(s, '/');
    assert forall j :: |p.dir| <= j < |s| ==> s[j] == p.name[j - |p.dir|];
    if p.dir != [] {
      assert s[|p.dir| - 1] == '/';
    }
    assert i == |p.dir| - 1;
    assert s[..i + 1] == p.dir;
  }

  /** Where `suffix` starts in `name`: at the last dot, provided that dot is
      neither the first nor the last character; otherwise there is no suffix. */
  function SuffixStart(name: string): (k: nat)
    ensures k <= |name|
    ensures k < |name| ==> 0 < k < |name| - 1 && name[k] == '.'
    ensures forall i :: k < i < |name| ==> name[i] != '.'
    ensures 0 < LastIndexOf(name, '.') < |name| - 1 ==> k == LastIndexOf(name, '.')
  {
    var i := LastIndexOf(name, '.');
    if 0 < i < |name| - 1 then i else |name|
  }

  /** `PurePath.suffix`: a tail of the name that is empty or a dot followed
      by at least one character, none of them dots. */
  function Suffix(name: string): (x: string)
    ensures |x| <= |name| && x == name[|name| - |x|..]
    ensures x == [] || (|x| >= 2 && x[0] == '.' && '.' !in x[1..])
  {
    name[SuffixStart(name)..]
  }

  /** `PurePath.stem`: a head of the name that is all of it when there is no
      suffix, and otherwise ends just before the last dot. */
  function Stem(name: string): (t: string)
    ensures |t| <= |name| && t == name[..|t|]
    ensures |t| < |name| ==> 0 < |t| && name[|t|] == '.' && '.' !in name[|t| + 1..]
  {
    name[..SuffixStart(name)]
  }

  /** The stem and the suffix split the name, and a non-empty suffix is a dot
      followed by at least one character, none of them dots. */
  lemma StemSuffixSplit(name: string)
    ensures Stem(name) + Suffix(name) == name
    ensures var x := Suffix(name);
      x == [] || (|x| >= 2 && x[0] == '.' && '.' !in x[1..] && |Stem(name)| > 0)
  {
    var x := Suffix(name);
    var k := SuffixStart(name);
    if x != [] {
      forall j | 1 <= j < |x|
        ensures x[j] != '.'
      {
        assert x[j] == name[k + j];
      }
    }
  }

  /** The backup file name `<stem>_new<suffix>`: four characters longer than
      the name, with the same first and last characters around `_new`. */
  function BackupName(name: string): (b: string)
    ensures |b| == |name| + 4
    ensures b[..|Stem(name)|] == Stem(name) && b[|b| - |Suffix(name)|..] == Suffix(name)
  {
    Stem(name) + "_new" + Suffix(name)
  }

  /** `Path(p.parent, f'{p.stem}_new{p.suffix}')`: the sibling that receives
      the patched document. */
  function BackupPath(p: Path): (b: Path)
    ensures b.dir == p.dir
    ensures |b.name| == |p.name| + 4
    ensures b != p
    ensures WellFormed(p) ==> WellFormed(b)
  {
    StemSuffixSplit(p.name);
    Path(p.dir, BackupName(p.name))
  }

  /** A name with a suffix keeps it in the backup name, and `_new` is appended
      to the stem. */
  lemma {:induction false} BackupKeepsSuffix(name: string)
    requires Suffix(name) != []
    ensures Suffix(BackupName(name)) == Suffix(name)
    ensures Stem(BackupName(name)) == Stem(name) + "_new"
  {
    StemSuffixSplit(name);
    var stem, x := Stem(name), Suffix(name);
    var b := BackupName(name);
    var k := |stem| + 4;
    assert b[k..] == x;
    assert b[k] == '.';
    forall i | k < i < |b|
      ensures b[i] != '.'
    {
      assert b[i] == x[i - k];
      assert x[1..][i - k - 1] == x[i - k];
    }
    assert LastIndexOf(b, '.') == k;
    assert b[..k] == stem + "_new";
  }

  /** A dot past the first character, followed by at least one character
      and no other dot, is where the suffix starts. */
  lemma SuffixAtLastDot(name: string, k: nat)
    requires 0 < k < |name| - 1 && name[k] == '.'
    requires forall i :: k < i < |name| ==> name[i] != '.'
    ensures Stem(name) == name[..k] && Suffix(name) == name[k..]
  {
    assert LastIndexOf(name, '.') == k;
  }

  /** Every name of the form `<stem>.<ext>` with a non-empty stem and a
      non-empty extension free of dots becomes `<stem>_new.<ext>`. */
  lemma {:induction false} BackupNameOfSplit(stem: string, ext: string)
    requires stem != [] && ext != [] && '.' !in ext
    ensures BackupName(stem + "." + ext) == stem + "_new." + ext
  {
    var name := stem + "." + ext;
    var k := |stem|;
    assert name[..k] == stem && name[k..] == "." + ext;
    forall i | k < i < |name|
      ensures name[i] != '.'
    {
      assert name[i] == ext[i - k - 1];
    }
    SuffixAtLastDot(name, k);
    assert stem + "_new" + ("." + ext) == stem + "_new." + ext;
  }

  /** A name without any dot gets `_new` appended and still has no suffix. */
  lemma {:induction false} BackupWithoutDot(name: string)
    requires '.' !in name
    ensures BackupName(name) == name + "_new"
    ensures Suffix(BackupName(name)) == []
  {
    var b := BackupName(name);
    assert Suffix(name) == [];
    assert Stem(name) == name;
    assert '.' !in b by {
      forall i | 0 <= i < |b|
        ensures b[i] != '.'
      {
        if i < |name| {
          assert b[i] == name[i];
        }
      }
    }
    assert LastIndexOf(b, '.') == -1;
  }
}
