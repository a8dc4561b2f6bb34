/** The parts of `pathlib.Path` on POSIX that the application relies on: `name`, `stem`, `suffix`. */
module Paths {

  /** `s.rfind(c)`: the last position of `c`, or -1. */
  function RFind(s: string, c: char): (i: int)
    ensures -1 <= i < |s|
    ensures i >= 0 ==> s[i] == c
    ensures forall j :: i < j < |s| ==> s[j] != c
  {
    if s == [] then -1
    else if s[|s| - 1] == c then |s| - 1
    else RFind(s[..|s| - 1], c)
  }

  /** The last component; empty and `.` components do not count. */
  function Name(path: string): string
    decreases |path|
  {
    var i := RFind(path, '/');
    var last := path[i + 1..];
    if last != "" && last != "." then last
    else if i < 0 then ""
    else Name(path[..i])
  }

  /** Where the suffix of a file name starts; its length when it has none. */
  function SuffixStart(name: string): (k: nat)
    ensures k <= |name|
    ensures k < |name| ==> 0 < k < |name| - 1 && name[k] == '.' && '.' !in name[k + 1..]
  {
    var i := RFind(name, '.');
    if 0 < i < |name| - 1 then i else |name|
  }

  function Suffix(name: string): string {
    name[SuffixStart(name)..]
  }

  function Stem(name: string): string {
    name[..SuffixStart(name)]
  }

  lemma RFindIs(s: string, c: char, i: nat)
    requires i < |s| && s[i] == c && c !in s[i + 1..]
    ensures RFind(s, c) == i
  {
    assert forall j :: i < j < |s| ==> s[j] == s[i + 1..][j - i - 1];
  }

  /** A name put together from a stem and a suffix takes apart again. */
  lemma SplitIsRecovered(stem: string, suffix: string)
    requires stem != ""
    requires |suffix| >= 2 && suffix[0] == '.' && '.' !in suffix[1..]
    ensures Stem(stem + suffix) == stem && Suffix(stem + suffix) == suffix
  {
    var name := stem + suffix;
    assert name[|stem| + 1..] == suffix[1..];
    RFindIs(name, '.', |stem|);
  }

  lemma StemAndSuffix(name: string)
    ensures Stem(name) + Suffix(name) == name
    ensures name != "" ==> Stem(name) != ""
  {
  }

  /** A slash-free name is its own last component. */
  lemma NameOfPlain(name: string)
    requires '/' !in name && name != "" && name != "."
    ensures Name(name) == name
  {
    assert RFind(name, '/') == -1;
  }

  /** The name is what comes after the last slash; slashes behind it, and "/." in any number, do not count. */
  lemma NameOfPath(folder: string, name: string)
    requires '/' !in name && name != "" && name != "."
    ensures Name(folder + "/" + name) == name
  {
    var path := folder + "/" + name;
    assert path[|folder| + 1..] == name;
    RFindIs(path, '/', |folder|);
  }

  lemma NameIgnoresSlashes(path: string)
    ensures Name(path + "/") == Name(path) && Name(path + "/.") == Name(path) && Name("") == Name(".") == ""
  {
    var slashed, dotted := path + "/", path + "/.";
    assert slashed[|path| + 1..] == "" && slashed[..|path|] == path;
    RFindIs(slashed, '/', |path|);
    assert dotted[|path| + 1..] == "." && dotted[..|path|] == path;
    RFindIs(dotted, '/', |path|);
    assert RFind(".", '/') == -1 && "."[0..] == ".";
  }
}
