/** The dataset's directory convention: image `i` lives in the file
    `"<i>.jpg"` under the configured directory, joined the way POSIX
    `os.path.join` joins two components. */
module Paths {
  import opened Wrappers
  import opened Decimal

  const Extension: string := ".jpg"

  /** `str(i) + '.jpg'`: the canonical file name of image `i`. */
  function ImageName(i: nat): string {
    NatToString(i) + Extension
  }

  /** Two-argument `posixpath.join`: an absolute second part replaces the
      first; otherwise a `/` is inserted unless the first part is empty or
      already ends in `/`. */
  function Join(dir: string, name: string): (p: string)
    ensures 1 <= |name| && name[0] == '/' ==> p == name
    ensures (|name| == 0 || name[0] != '/') ==> p == JoinPrefix(dir) + name
    ensures |p| >= |name|
  {
    if 1 <= |name| && name[0] == '/' then name
    else if |dir| == 0 || dir[|dir| - 1] == '/' then dir + name
    else dir + "/" + name
  }

  /** What `Join` puts in front of a relative second part. */
  function JoinPrefix(dir: string): string {
    if |dir| == 0 || dir[|dir| - 1] == '/' then dir else dir + "/"
  }

  /** The path of image `i` under `dir`. */
  function ImagePath(dir: string, i: nat): string {
    Join(dir, ImageName(i))
  }

  /** Reads an image index back from a canonical file name: a numeral
      without leading zeros followed by `.jpg`. */
  function IndexOfName(name: string): Option<nat> {
    if |name| > |Extension| && name[|name| - |Extension|..] == Extension
       && Canonical(name[..|name| - |Extension|])
    then Some(DigitsValue(name[..|name| - |Extension|]))
    else None
  }

  /** Every canonical name identifies its image. */
  lemma ImageNameRoundTrip(i: nat)
    ensures IndexOfName(ImageName(i)) == Some(i)
  {
    var name := ImageName(i);
    assert name[..|name| - |Extension|] == NatToString(i);
    assert name[|name| - |Extension|..] == Extension;
    NatToStringRoundTrip(i);
  }

  /** Distinct images have distinct names. */
  lemma ImageNameInjective(i: nat, j: nat)
    requires ImageName(i) == ImageName(j)
    ensures i == j
  {
    ImageNameRoundTrip(i);
    ImageNameRoundTrip(j);
  }

  /** Under one directory, distinct images have distinct paths. */
  /** The joined path always ends with the name. */
  lemma JoinEndsWithName(dir: string, name: string)
    ensures |Join(dir, name)| >= |name|
    ensures Join(dir, name)[|Join(dir, name)| - |name|..] == name
  {
    var p := Join(dir, name);
    if !(1 <= |name| && name[0] == '/') {
      var pre := JoinPrefix(dir);
      assert p == pre + name;
      assert p[|pre|..] == name;
    }
  }

  /** Under one directory, distinct relative names give distinct paths. */
  lemma {:induction false} JoinInjective(dir: string, a: string, b: string)
    requires |a| == 0 || a[0] != '/'
    requires |b| == 0 || b[0] != '/'
    requires Join(dir, a) == Join(dir, b)
    ensures a == b
  {
    var pre := JoinPrefix(dir);
    assert a == (pre + a)[|pre|..];
    assert b == (pre + b)[|pre|..];
  }

  lemma ImagePathInjective(dir: string, i: nat, j: nat)
    requires ImagePath(dir, i) == ImagePath(dir, j)
    ensures i == j
  {
    var a, b := ImageName(i), ImageName(j);
    assert a[0] != '/' && b[0] != '/' by {
      assert IsDigit(NatToString(i)[0]) && a[0] == NatToString(i)[0];
      assert IsDigit(NatToString(j)[0]) && b[0] == NatToString(j)[0];
    }
    JoinInjective(dir, a, b);
    ImageNameInjective(i, j);
  }

  /** The only name that reads back as image `i` is `str(i) + '.jpg'`. */
  lemma IndexOfNameInverse(name: string, i: nat)
    requires IndexOfName(name) == Some(i)
    ensures name == ImageName(i)
  {
    var stem := name[..|name| - |Extension|];
    CanonicalRoundTrip(stem);
    assert name == stem + Extension;
  }
}
