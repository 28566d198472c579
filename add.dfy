/** The decision logic of the add command (cmd/add.go): validate the request,
    add one line to the tap, cask or mas section, or re-render the brew section
    through the dependency resolver, and then print or write the manifest.
    Reading and writing the manifest and the metadata snapshot are outside the
    model; the resolver (`brew.CacheMap.Add`) and `brew.Entry.Format` are
    parameters about which nothing is assumed. */
module AddCmd {
  import opened Wrappers
  import opened Seqs
  import opened Text
  import opened Helpers
  import opened Brew

  /** The resolver, seeded with the manifest's brew lines: the name-to-entry map
      after adding an entry under a policy, or its error. */
  type Resolver = (seq<string>, Entry, Policy) -> Result<map<string, Entry>, string>

  /** `Entry.Format`: the manifest line of an entry, or its error. */
  type Formatter = Entry -> Result<string, string>

  datatype AddError =
    | NoPackageType
    | AlreadyInBrewfile(packageType: string, name: string)
    | BadTapFormat
    | BadRestartService
    | ResolutionFailed(msg: string)
    | FormatFailed(msg: string)
    | MissingMasID(name: string)
  {
    /** The errors that come out of `addBrewPackage`. */
    predicate FromBrewSection()
    {
      BadRestartService? || ResolutionFailed? || FormatFailed?
    }
  }

  /** The values of `--restart-service` that are translated. */
  const RestartOptions: seq<string> := ["always", "changed"]

  /** The text of each error, as the source writes it. The restart message
      offers 'true', which is itself refused; `CorrectedRestartMessage` is the
      text that names the accepted values. */
  function Message(e: AddError): (m: string)
    ensures e.AlreadyInBrewfile? ==> ConstructBaseEntry(e.packageType, e.name) <= m
    ensures e.ResolutionFailed? || e.FormatFailed? ==> m == e.msg
    ensures e.BadRestartService? ==> m == RestartMessageAsWritten
  {
    match e
    case NoPackageType => "A package type must be specified. See 'bfm add -help'."
    case AlreadyInBrewfile(t, n) => ConstructBaseEntry(t, n) + " is already in the Brewfile."
    case BadTapFormat => "Unrecognised tap format. Use the format 'user/repo'."
    case BadRestartService => RestartMessageAsWritten
    case ResolutionFailed(msg) => msg
    case FormatFailed(msg) => msg
    case MissingMasID(n) => "An id is required for mas apps. Get the id with 'mas search " + n + "' and try again."
  }

  /** The restart mode written to the manifest: "always" becomes "true",
      "changed" becomes ":changed", anything of at most one byte in UTF-8 (Go's
      `len`) passes through, and every other value is refused. */
  function NormaliseRestart(restart: string): (r: Result<string, AddError>)
    ensures r.Success? <==> ByteLength(restart) <= 1 || restart in RestartOptions
    ensures r.Failure? ==> r.error == BadRestartService
    ensures r.Success? && ByteLength(restart) <= 1 ==> r.value == restart
    ensures r.Success? && restart == RestartOptions[0] ==> r.value == "true"
    ensures r.Success? && restart == RestartOptions[1] ==> r.value == ":changed"
  {
    if ByteLength(restart) > 1 then
      match restart
      case "always" => Success("true")
      case "changed" => Success(":changed")
      case _ => Failure(BadRestartService)
    else Success(restart)
  }

  /** Only the empty mode and a single ASCII character pass through
      untranslated: one non-ASCII character is already two bytes or more. */
  lemma ShortModesPassThrough(restart: string)
    ensures NormaliseRestart(restart).Success? && NormaliseRestart(restart).value == restart
            <==> restart == [] || (|restart| == 1 && restart[0] as int < 0x80)
  {
    ByteLengthAtMostOne(restart);
    if ByteLength(restart) > 1 && restart in RestartOptions {
      assert restart == "always" || restart == "changed";
    }
  }

  /** The message as the source writes it. */
  const RestartMessageAsWritten := "Valid options for the --restart-service flag are 'true' and 'changed'."

  /** The message that names the values the translation accepts. It keeps the
      source's wording up to the list of options. */
  function CorrectedRestartMessage(): (m: string)
    ensures 49 <= |m| && m[..49] == RestartMessageAsWritten[..49]
    ensures m != RestartMessageAsWritten
  {
    "Valid options for the --restart-service flag are '" + RestartOptions[0] + "' and '" + RestartOptions[1] + "'."
  }

  /** The source's message offers 'true', which is itself refused. */
  lemma AsWrittenRestartMessageNamesRejectedValue()
    ensures OccursAt(Message(BadRestartService), "'true'", 49)
    ensures NormaliseRestart("true").Failure?
  {
  }

  /** The corrected message names exactly the accepted values. */
  lemma RestartMessageNamesAcceptedValues()
    ensures forall i :: 0 <= i < |RestartOptions| ==> NormaliseRestart(RestartOptions[i]).Success?
    ensures OccursAt(CorrectedRestartMessage(), "'" + RestartOptions[0] + "'", 49)
    ensures OccursAt(CorrectedRestartMessage(), "'" + RestartOptions[1] + "'", 62)
  {
    forall i | 0 <= i < |RestartOptions|
      ensures NormaliseRestart(RestartOptions[i]).Success?
    {
      assert RestartOptions[i] in RestartOptions;
    }
    var m := CorrectedRestartMessage();
    var lead := "Valid options for the --restart-service flag are '";
    assert m == lead + RestartOptions[0] + "' and '" + RestartOptions[1] + "'.";
    assert |lead| == 50;
  }

  /** The expansion policy: `AddAll` wins over `AddPackageAndRequired`, which wins
      over the default of the package alone. */
  function ChoosePolicy(flags: Flags): (p: Policy)
    ensures p == AddAll <==> flags.AddAll
    ensures p == AddPackageAndRequired <==> !flags.AddAll && flags.AddPackageAndRequired
    ensures p == AddPackageOnly <==> !flags.AddAll && !flags.AddPackageAndRequired
  {
    if flags.AddAll then AddAll
    else if flags.AddPackageAndRequired then AddPackageAndRequired
    else AddPackageOnly
  }

  /** Every entry of the resolved map renders. */
  predicate AllFormat(m: map<string, Entry>, format: Formatter)
  {
    forall k :: k in m ==> format(m[k]).Success?
  }

  /** Every key of `order` is in the map and renders. */
  predicate Formattable(m: map<string, Entry>, format: Formatter, order: seq<string>)
  {
    forall i :: 0 <= i < |order| ==> order[i] in m && format(m[order[i]]).Success?
  }

  /** The lines of the entries, visited in `order`. */
  function Lines(m: map<string, Entry>, format: Formatter, order: seq<string>): (r: seq<string>)
    requires Formattable(m, format, order)
    ensures |r| == |order|
    ensures forall i :: 0 <= i < |order| ==> r[i] == format(m[order[i]]).value
  {
    if order == [] then []
    else Lines(m, format, order[..|order| - 1]) + [format(m[order[|order| - 1]]).value]
  }

  lemma EnumerationFormattable(m: map<string, Entry>, format: Formatter, order: seq<string>)
    requires IsEnumeration(order, m.Keys) && AllFormat(m, format)
    ensures Formattable(m, format, order)
  {
    forall i | 0 <= i < |order| ensures order[i] in m {
      assert order[i] in Elements(order);
    }
  }

  /** Dropping the key at `k` from the visiting order drops its line. */
  lemma LinesRemove(m: map<string, Entry>, format: Formatter, o: seq<string>, k: nat)
    requires Formattable(m, format, o) && k < |o|
    ensures Formattable(m, format, o[..k] + o[k + 1..])
    ensures multiset(Lines(m, format, o))
            == multiset(Lines(m, format, o[..k] + o[k + 1..])) + multiset{format(m[o[k]]).value}
  {
    var rest := o[..k] + o[k + 1..];
    assert Formattable(m, format, rest) by {
      forall i | 0 <= i < |rest| ensures rest[i] in m && format(m[rest[i]]).Success? {
        if i < k { assert rest[i] == o[i]; } else { assert rest[i] == o[i + 1]; }
      }
    }
    var l := Lines(m, format, o);
    var lr := Lines(m, format, rest);
    var dropped := l[..k] + l[k + 1..];
    assert |lr| == |dropped|;
    forall i | 0 <= i < |lr| ensures lr[i] == dropped[i] {
      if i < k { assert rest[i] == o[i]; } else { assert rest[i] == o[i + 1]; }
    }
    assert lr == dropped;
    assert l == l[..k] + [l[k]] + l[k + 1..];
    assert multiset(l) == multiset(l[..k]) + multiset{l[k]} + multiset(l[k + 1..]);
  }

  /** Visiting the same keys in another order yields the same lines in another order. */
  lemma {:induction false} LinesPermutation(m: map<string, Entry>, format: Formatter, o1: seq<string>, o2: seq<string>)
    requires Formattable(m, format, o1) && Formattable(m, format, o2)
    requires multiset(o1) == multiset(o2)
    ensures multiset(Lines(m, format, o1)) == multiset(Lines(m, format, o2))
    decreases |o1|
  {
    if o1 == [] {
      assert |multiset(o2)| == 0;
    } else {
      var n := |o1| - 1;
      var x := o1[n];
      assert x in multiset(o2);
      var k :| 0 <= k < |o2| && o2[k] == x;
      var rest1 := o1[..n] + o1[n + 1..];
      var rest2 := o2[..k] + o2[k + 1..];
      assert o1 == o1[..n] + [x] + o1[n + 1..];
      assert o2 == o2[..k] + [x] + o2[k + 1..];
      assert multiset(rest1) == multiset(o1) - multiset{x};
      assert multiset(rest2) == multiset(o2) - multiset{x};
      LinesRemove(m, format, o1, n);
      LinesRemove(m, format, o2, k);
      LinesPermutation(m, format, rest1, rest2);
    }
  }

  /** Go randomises map iteration; the sorted lines do not depend on the order. */
  lemma IterationOrderIrrelevant(m: map<string, Entry>, format: Formatter, o1: seq<string>, o2: seq<string>)
    requires IsEnumeration(o1, m.Keys) && IsEnumeration(o2, m.Keys) && AllFormat(m, format)
    ensures Formattable(m, format, o1) && Formattable(m, format, o2)
    ensures Sort(Lines(m, format, o1)) == Sort(Lines(m, format, o2))
  {
    EnumerationFormattable(m, format, o1);
    EnumerationFormattable(m, format, o2);
    EnumerationsArePermutations(o1, o2, m.Keys);
    LinesPermutation(m, format, o1, o2);
    SortDeterminedByElements(Lines(m, format, o1), Lines(m, format, o2));
  }

  /** The brew section `addBrewPackage` produces when it succeeds: the sorted lines
      of every entry of the resolved map; None when it fails. */
  ghost function BrewSection(add: string, restart: string, args: seq<string>, seed: seq<string>,
                             resolve: Resolver, format: Formatter, flags: Flags): Option<seq<string>>
  {
    match NormaliseRestart(restart)
    case Failure(_) => None
    case Success(r) =>
      match resolve(seed, Entry(add, r, args), ChoosePolicy(flags))
      case Failure(_) => None
      case Success(m) =>
        if AllFormat(m, format) then
          var order := SetToSeq(m.Keys);
          EnumerationFormattable(m, format, order);
          Some(Sort(Lines(m, format, order)))
        else None
  }

  /** `addBrewPackage`: normalise the restart mode, resolve the entry under the
      chosen policy (one call), render every entry of the map in Go's
      unspecified iteration order, and sort the lines. */
  method AddBrewPackage(add: string, restart: string, args: seq<string>, seed: seq<string>,
                        resolve: Resolver, format: Formatter, flags: Flags)
    returns (lines: seq<string>, err: Option<AddError>)
    ensures err.Some? ==> lines == [] && err.value.FromBrewSection()
    ensures err.None? <==> BrewSection(add, restart, args, seed, resolve, format, flags).Some?
    ensures err.None? ==> lines == BrewSection(add, restart, args, seed, resolve, format, flags).value
    ensures NormaliseRestart(restart).Failure? ==> err == Some(BadRestartService)
    ensures NormaliseRestart(restart).Success? ==>
      var resolved := resolve(seed, Entry(add, NormaliseRestart(restart).value, args), ChoosePolicy(flags));
      && (resolved.Failure? ==> err == Some(ResolutionFailed(resolved.error)))
      && (resolved.Success? && err.Some? ==>
            err.value.FormatFailed? && exists k :: k in resolved.value && format(resolved.value[k]) == Failure(err.value.msg))
  {
    var normalised := NormaliseRestart(restart);
    if normalised.Failure? {
      return [], Some(BadRestartService);
    }
    var resolved := resolve(seed, Entry(add, normalised.value, args), ChoosePolicy(flags));
    if resolved.Failure? {
      return [], Some(ResolutionFailed(resolved.error));
    }
    var m := resolved.value;
    lines := [];
    var keys := m.Keys;
    ghost var visited: seq<string> := [];
    while keys != {}
      invariant keys <= m.Keys
      invariant NoDup(visited) && Elements(visited) == m.Keys - keys
      invariant Formattable(m, format, visited)
      invariant lines == Lines(m, format, visited)
      decreases |keys|
    {
      var k :| k in keys;
      var line := format(m[k]);
      if line.Failure? {
        FailingEntryRejected(add, restart, args, seed, resolve, format, flags, k);
        return [], Some(FormatFailed(line.error));
      }
      VisitNext(m, format, visited, keys, k);
      lines := lines + [line.value];
      visited := visited + [k];
      keys := keys - {k};
    }
    EnumerationSorted(add, restart, args, seed, resolve, format, flags, visited);
    lines := Sort(lines);
    return lines, None;
  }

  /** One loop step: visiting a fresh key keeps the visiting order an enumeration. */
  lemma VisitNext(m: map<string, Entry>, format: Formatter, visited: seq<string>, keys: set<string>, k: string)
    requires keys <= m.Keys && k in keys
    requires NoDup(visited) && Elements(visited) == m.Keys - keys
    requires Formattable(m, format, visited) && format(m[k]).Success?
    ensures NoDup(visited + [k]) && Elements(visited + [k]) == m.Keys - (keys - {k})
    ensures Formattable(m, format, visited + [k])
    ensures Lines(m, format, visited + [k]) == Lines(m, format, visited) + [format(m[k]).value]
  {
    assert k !in visited by { assert k !in Elements(visited); }
    assert Elements(visited + [k]) == Elements(visited) + {k};
    assert (visited + [k])[..|visited|] == visited;
  }

  /** An entry that does not render makes the brew section fail. */
  lemma FailingEntryRejected(add: string, restart: string, args: seq<string>, seed: seq<string>,
                             resolve: Resolver, format: Formatter, flags: Flags, k: string)
    requires NormaliseRestart(restart).Success?
    requires resolve(seed, Entry(add, NormaliseRestart(restart).value, args), ChoosePolicy(flags)).Success?
    requires k in resolve(seed, Entry(add, NormaliseRestart(restart).value, args), ChoosePolicy(flags)).value
    requires format(resolve(seed, Entry(add, NormaliseRestart(restart).value, args), ChoosePolicy(flags)).value[k]).Failure?
    ensures BrewSection(add, restart, args, seed, resolve, format, flags).None?
  {
  }

  /** When every key was visited and rendered, the sorted lines are the brew section. */
  lemma EnumerationSorted(add: string, restart: string, args: seq<string>, seed: seq<string>,
                          resolve: Resolver, format: Formatter, flags: Flags, visited: seq<string>)
    requires NormaliseRestart(restart).Success?
    requires resolve(seed, Entry(add, NormaliseRestart(restart).value, args), ChoosePolicy(flags)).Success?
    requires var m := resolve(seed, Entry(add, NormaliseRestart(restart).value, args), ChoosePolicy(flags)).value;
      IsEnumeration(visited, m.Keys) && Formattable(m, format, visited)
    ensures var m := resolve(seed, Entry(add, NormaliseRestart(restart).value, args), ChoosePolicy(flags)).value;
      BrewSection(add, restart, args, seed, resolve, format, flags) == Some(Sort(Lines(m, format, visited)))
  {
    var m := resolve(seed, Entry(add, NormaliseRestart(restart).value, args), ChoosePolicy(flags)).value;
    assert AllFormat(m, format) by {
      forall k | k in m ensures format(m[k]).Success? {
        assert k in Elements(visited);
      }
    }
    IterationOrderIrrelevant(m, format, visited, SetToSeq(m.Keys));
  }

  /** `appendMasID`: the entry followed by `, id: ` and the id. */
  function AppendMasID(packageEntry: string, id: string): (r: string)
    ensures packageEntry <= r
    ensures r[|packageEntry|..] == ", id: " + id
  {
    packageEntry + ", id: " + id
  }

  /** The manifest line `addPackage` adds. */
  function NewLine(packageType: string, newPackage: string, flags: Flags): string
  {
    var base := ConstructBaseEntry(packageType, newPackage);
    if packageType == "mas" then AppendMasID(base, flags.MasID) else base
  }

  /** `addPackage`: the section with the new line appended and nothing else changed. */
  function AddPackage(packageType: string, newPackage: string, packages: seq<string>, flags: Flags): (r: seq<string>)
    ensures |r| == |packages| + 1 && r[..|packages|] == packages
    ensures ConstructBaseEntry(packageType, newPackage) <= r[|packages|]
    ensures packageType == "mas" <==> r[|packages|] != ConstructBaseEntry(packageType, newPackage)
    ensures packageType == "mas" ==> r[|packages|] == AppendMasID(ConstructBaseEntry(packageType, newPackage), flags.MasID)
  {
    packages + [NewLine(packageType, newPackage, flags)]
  }

  /** Once the added line is in the manifest text, `entryExists` finds the package. */
  lemma AddedLineIsFound(packageType: string, newPackage: string, packages: seq<string>, flags: Flags,
                         contents: string, i: int)
    requires OccursAt(contents, AddPackage(packageType, newPackage, packages, flags)[|packages|], i)
    ensures EntryExists(contents, packageType, newPackage)
  {
    var line := AddPackage(packageType, newPackage, packages, flags)[|packages|];
    var base := ConstructBaseEntry(packageType, newPackage);
    assert line == base + line[|base|..];
    LongerLineCounts(contents, packageType, newPackage, line[|base|..], i);
  }

  /** No character of `s` is a newline (RE2's `.` matches anything else). */
  predicate NoNewline(s: string)
  {
    forall k :: 0 <= k < |s| ==> s[k] != '\n'
  }

  /** The pattern `.+/.+` matches `s[i..l]`, with its slash at `j`. */
  predicate TapMatchAt(s: string, i: int, j: int, l: int)
  {
    0 <= i < j && j + 1 < l <= |s| && s[j] == '/' && NoNewline(s[i..j]) && NoNewline(s[j + 1..l])
  }

  /** `regexp.MatchString(".+/.+", s)`: the pattern matches some piece of `s`. */
  ghost predicate MatchesTapPattern(s: string)
  {
    exists i, j, l :: TapMatchAt(s, i, j, l)
  }

  /** Some slash has a non-newline character on each side. */
  predicate SlashWithNeighbours(tap: string)
  {
    exists j | 1 <= j < |tap| - 1 :: tap[j] == '/' && tap[j - 1] != '\n' && tap[j + 1] != '\n'
  }

  /** The slash test decides exactly the regular expression the source uses. */
  lemma TapFormatIsRegexMatch(tap: string)
    ensures SlashWithNeighbours(tap) <==> MatchesTapPattern(tap)
  {
    if SlashWithNeighbours(tap) {
      var j :| 1 <= j < |tap| - 1 && tap[j] == '/' && tap[j - 1] != '\n' && tap[j + 1] != '\n';
      assert TapMatchAt(tap, j - 1, j, j + 2);
    }
    if MatchesTapPattern(tap) {
      var i, j, l :| TapMatchAt(tap, i, j, l);
      assert tap[j - 1] == tap[i..j][j - 1 - i];
      assert tap[j + 1] == tap[j + 1..l][0];
    }
  }

  /** `hasCorrectTapFormat`: `regexp.MatchString(".+/.+", tap)`, decided by the
      slash test. */
  function HasCorrectTapFormat(tap: string): (r: bool)
    ensures r <==> MatchesTapPattern(tap)
  {
    TapFormatIsRegexMatch(tap);
    SlashWithNeighbours(tap)
  }

  /** `hasMasID`: a mas id was given (Go's `len` counts bytes). */
  function HasMasID(id: string): (b: bool)
    ensures b <==> id != ""
  {
    ByteLength(id) > 0
  }

  /** The four sections of a manifest. */
  datatype Sections = Sections(Tap: seq<string>, Brew: seq<string>, Cask: seq<string>, Mas: seq<string>)

  /** `brewfile.Packages`, whose sections `Add` reassigns in place. */
  class Packages {
    var Tap: seq<string>
    var Brew: seq<string>
    var Cask: seq<string>
    var Mas: seq<string>

    constructor ()
      ensures Snapshot() == Sections([], [], [], [])
    {
      Tap, Brew, Cask, Mas := [], [], [], [];
    }

    function Snapshot(): Sections
      reads this
    {
      Sections(Tap, Brew, Cask, Mas)
    }
  }

  /** What `Add` ends with: an error, the manifest text printed (dry run), or the
      manifest text written to the file. */
  datatype AddOutcome = Failed(error: AddError) | Printed(text: string) | Written(text: string)

  /** A tap, cask or mas section after adding the new line and sorting: the old
      lines and the new one, in ascending order. */
  function UpdatedSection(section: seq<string>, packageType: string, name: string, flags: Flags): (r: seq<string>)
    ensures Sorted(r)
    ensures multiset(r) == multiset(section) + multiset{NewLine(packageType, name, flags)}
    ensures |r| == |section| + 1
  {
    Sort(AddPackage(packageType, name, section, flags))
  }

  /** `Add`. `brewfile` is what `FromBrewfile` parsed from the manifest and
      `bytes` is `Packages.Bytes`, the manifest text of a set of sections. The
      checks run in the order: a type flag, the entry not yet present, the tap
      format, the brew section, the mas id; every one of them precedes the write. */
  method Add(args: seq<string>, packages: Packages, brewfile: Sections, bytes: Sections -> string,
             resolve: Resolver, format: Formatter, flags: Flags)
    returns (outcome: AddOutcome)
    requires FlagProvided(flags) ==> |args| > 0
    modifies packages
    ensures !FlagProvided(flags) ==>
      outcome == Failed(NoPackageType) && packages.Snapshot() == old(packages.Snapshot())
    ensures FlagProvided(flags) ==>
      var name, t := args[0], GetPackageType(flags);
      var tap := if flags.Tap then UpdatedSection(brewfile.Tap, t, name, flags) else brewfile.Tap;
      var brew := BrewSection(name, flags.RestartService, flags.Args, brewfile.Brew, resolve, format, flags);
      var cask := if flags.Cask then UpdatedSection(brewfile.Cask, t, name, flags) else brewfile.Cask;
      var mas := if flags.Mas then UpdatedSection(brewfile.Mas, t, name, flags) else brewfile.Mas;
      if EntryExists(bytes(brewfile), t, name) then
        outcome == Failed(AlreadyInBrewfile(t, name)) && packages.Snapshot() == brewfile
      else if flags.Tap && !HasCorrectTapFormat(name) then
        outcome == Failed(BadTapFormat) && packages.Snapshot() == brewfile
      else if flags.Brew && brew.None? then
        outcome.Failed? && outcome.error.FromBrewSection() && packages.Snapshot() == brewfile.(Tap := tap)
      else
        var brewLines := if flags.Brew then brew.value else brewfile.Brew;
        if flags.Mas && !HasMasID(flags.MasID) then
          outcome == Failed(MissingMasID(name)) && packages.Snapshot() == Sections(tap, brewLines, cask, brewfile.Mas)
        else
          var final := Sections(tap, brewLines, cask, mas);
          && packages.Snapshot() == final
          && outcome == (if flags.DryRun then Printed(bytes(final)) else Written(bytes(final)))
  {
    if !FlagProvided(flags) {
      return Failed(NoPackageType);
    }
    var toAdd := args[0];
    var packageType := GetPackageType(flags);

    packages.Tap, packages.Brew, packages.Cask, packages.Mas := brewfile.Tap, brewfile.Brew, brewfile.Cask, brewfile.Mas;

    if EntryExists(bytes(packages.Snapshot()), packageType, toAdd) {
      return Failed(AlreadyInBrewfile(packageType, toAdd));
    }

    if flags.Tap {
      if !HasCorrectTapFormat(toAdd) {
        return Failed(BadTapFormat);
      }
      packages.Tap := Sort(AddPackage(packageType, toAdd, packages.Tap, flags));
    }

    if flags.Brew {
      var updated, error := AddBrewPackage(toAdd, flags.RestartService, flags.Args, brewfile.Brew, resolve, format, flags);
      if error.Some? {
        return Failed(error.value);
      }
      packages.Brew := updated;
    }

    if flags.Cask {
      packages.Cask := Sort(AddPackage(packageType, toAdd, packages.Cask, flags));
    }

    if flags.Mas {
      if !HasMasID(flags.MasID) {
        return Failed(MissingMasID(toAdd));
      }
      packages.Mas := Sort(AddPackage(packageType, toAdd, packages.Mas, flags));
    }

    if flags.DryRun {
      outcome := Printed(bytes(packages.Snapshot()));
    } else {
      outcome := Written(bytes(packages.Snapshot()));
    }
  }
}
