/** The manifest-line helpers of cmd/helpers.go: which package type the command
    line selected, the text of a manifest entry, whether it is already present,
    and the lines of one type. */
module Helpers {
  import opened Text
  import opened Seqs

  /** The add command's flags. */
  datatype Flags = Flags(
    DryRun: bool,
    Tap: bool,
    Brew: bool,
    Cask: bool,
    Mas: bool,
    Args: seq<string>,
    RestartService: string,
    MasID: string,
    AddPackageAndRequired: bool,
    AddAll: bool)

  /** The package types, in the order of precedence `getPackageType` gives them. */
  const PackageTypes: seq<string> := ["tap", "brew", "cask", "mas"]

  /** Whether the flag for package type `t` is set. */
  predicate IsSet(flags: Flags, t: string)
  {
    match t
    case "tap" => flags.Tap
    case "brew" => flags.Brew
    case "cask" => flags.Cask
    case "mas" => flags.Mas
    case _ => false
  }

  /** `flagProvided`: some package type was selected. */
  function FlagProvided(flags: Flags): (b: bool)
    ensures b <==> exists i :: 0 <= i < |PackageTypes| && IsSet(flags, PackageTypes[i])
  {
    assert IsSet(flags, PackageTypes[0]) == flags.Tap;
    assert IsSet(flags, PackageTypes[1]) == flags.Brew;
    assert IsSet(flags, PackageTypes[2]) == flags.Cask;
    assert IsSet(flags, PackageTypes[3]) == flags.Mas;
    flags.Tap || flags.Brew || flags.Cask || flags.Mas
  }

  /** `getPackageType`: the first selected type in the order tap, brew, cask, mas,
      or "" when none is selected. */
  function GetPackageType(flags: Flags): (t: string)
    ensures t == "" <==> !FlagProvided(flags)
    ensures t != "" ==>
      exists i :: 0 <= i < |PackageTypes| && PackageTypes[i] == t && IsSet(flags, t)
                  && forall j :: 0 <= j < i ==> !IsSet(flags, PackageTypes[j])
  {
    if flags.Tap then
      assert PackageTypes[0] == "tap";
      "tap"
    else if flags.Brew then
      assert PackageTypes[1] == "brew" && !IsSet(flags, PackageTypes[0]);
      "brew"
    else if flags.Cask then
      assert PackageTypes[2] == "cask" && !IsSet(flags, PackageTypes[0]) && !IsSet(flags, PackageTypes[1]);
      "cask"
    else if flags.Mas then
      assert PackageTypes[3] == "mas" && !IsSet(flags, PackageTypes[0]) && !IsSet(flags, PackageTypes[1])
        && !IsSet(flags, PackageTypes[2]);
      "mas"
    else ""
  }

  /** `constructBaseEntry`: the text `type 'name'`. */
  function ConstructBaseEntry(packageType: string, packageName: string): (e: string)
    ensures |e| == |packageType| + |packageName| + 3
    ensures packageType <= e && e[|packageType|] == ' '
    ensures e[|packageType| + 1] == '\'' && e[|e| - 1] == '\''
    ensures e[|packageType| + 2..|e| - 1] == packageName
  {
    packageType + " '" + packageName + "'"
  }

  /** A base entry names its type and package unambiguously, as long as the type
      holds no space (true of every package type). */
  lemma BaseEntryInjective(t1: string, n1: string, t2: string, n2: string)
    requires ' ' !in t1 && ' ' !in t2
    requires ConstructBaseEntry(t1, n1) == ConstructBaseEntry(t2, n2)
    ensures t1 == t2 && n1 == n2
  {
    var e := ConstructBaseEntry(t1, n1);
    if |t1| < |t2| {
      assert false;
    } else if |t2| < |t1| {
      assert false;
    }
    assert t1 == e[..|t1|] == t2;
    assert n1 == e[|t1| + 2..|e| - 1] == n2;
  }

  /** `entryExists`: the base entry occurs somewhere in the manifest text. */
  function EntryExists(contents: string, packageType: string, packageToCheck: string): (b: bool)
    ensures b <==> exists i :: OccursAt(contents, ConstructBaseEntry(packageType, packageToCheck), i)
  {
    Contains(contents, ConstructBaseEntry(packageType, packageToCheck))
  }

  /** A line that carries more than the base entry (`, args: [...]`, `, id: ...`)
      still makes the entry exist. */
  lemma LongerLineCounts(contents: string, packageType: string, name: string, suffix: string, i: int)
    requires OccursAt(contents, ConstructBaseEntry(packageType, name) + suffix, i)
    ensures EntryExists(contents, packageType, name)
  {
    var base := ConstructBaseEntry(packageType, name);
    assert contents[i..i + |base|] == (base + suffix)[..|base|] == base;
    assert OccursAt(contents, base, i);
  }

  /** `getPackages`: the lines that start with `packageType`, in their order. */
  function GetPackages(packageType: string, lines: seq<string>): (r: seq<string>)
    ensures IsSubsequence(r, lines)
    ensures forall x :: multiset(r)[x] == if packageType <= x then multiset(lines)[x] else 0
    ensures |r| <= |lines|
  {
    if lines == [] then []
    else
      assert lines == [lines[0]] + lines[1..];
      var rest := GetPackages(packageType, lines[1..]);
      if packageType <= lines[0] then [lines[0]] + rest else rest
  }

  /** Every line `getPackages` keeps has the prefix. */
  lemma {:induction false} GetPackagesHavePrefix(packageType: string, lines: seq<string>)
    ensures forall x :: x in GetPackages(packageType, lines) ==> packageType <= x
  {
    forall x | x in GetPackages(packageType, lines) ensures packageType <= x {
      assert multiset(GetPackages(packageType, lines))[x] > 0;
    }
  }
}
