/** The install command the command-line tool runs for a renderer's dependencies:
    the package manager's add command, then the package specs separated by spaces. */
module InstallCommand {
  import opened Strings
  import opened StringFacts

  datatype PackageManager = Npm | Pnpm | Yarn

  /** A dependency: a package name and an optional version ("" when absent). */
  datatype Dependency = Dependency(package: string, version: string)

  /** `d.version ? \`${d.package}@${d.version}\` : d.package`. */
  function Spec(d: Dependency): (r: string)
    ensures d.version == "" ==> r == d.package
    ensures d.version != "" ==> r == d.package + "@" + d.version
  {
    if d.version != "" then d.package + "@" + d.version else d.package
  }

  /** The command word of each package manager; any other manager gets npm's. */
  function Prefix(pm: PackageManager): string {
    match pm
    case Pnpm => "pnpm add"
    case Yarn => "yarn add"
    case Npm => "npm install"
  }

  /** `deps.map(spec)`. */
  function Specs(deps: seq<Dependency>): (r: seq<string>)
    ensures |r| == |deps|
    ensures forall k :: 0 <= k < |deps| ==> r[k] == Spec(deps[k])
  {
    if deps == [] then [] else [Spec(deps[0])] + Specs(deps[1..])
  }

  /** The command: prefix, one space, the specs joined by single spaces. */
  function GetInstallCommand(pm: PackageManager, deps: seq<Dependency>): (r: string)
    ensures |r| > |Prefix(pm)|
    ensures r[..|Prefix(pm)| + 1] == Prefix(pm) + " "
    ensures r[|Prefix(pm)| + 1..] == Join(Specs(deps), " ")
  {
    Prefix(pm) + " " + Join(Specs(deps), " ")
  }

  /** An empty dependency list leaves the prefix and one trailing space. */
  lemma NoDependencies(pm: PackageManager)
    ensures GetInstallCommand(pm, []) == Prefix(pm) + " "
  {
  }

  /** Adding a dependency at the end adds its spec after one more space. */
  lemma {:induction false} OneMoreDependency(pm: PackageManager, deps: seq<Dependency>, d: Dependency)
    requires deps != []
    ensures GetInstallCommand(pm, deps + [d]) == GetInstallCommand(pm, deps) + " " + Spec(d)
  {
    SpecsSnoc(deps, d);
    JoinSnoc(Specs(deps), Spec(d));
  }

  lemma SpecsSnoc(deps: seq<Dependency>, d: Dependency)
    ensures Specs(deps + [d]) == Specs(deps) + [Spec(d)]
  {
  }

  /** Joining one more part adds the separator and the part. */
  lemma {:induction false} JoinSnoc(parts: seq<string>, x: string)
    requires parts != []
    ensures Join(parts + [x], " ") == Join(parts, " ") + " " + x
    decreases |parts|
  {
    if |parts| > 1 {
      assert (parts + [x])[1..] == parts[1..] + [x];
      JoinSnoc(parts[1..], x);
    } else {
      assert parts + [x] == [parts[0], x];
    }
  }

  /** The specs can be read back by splitting the command's tail on spaces, when no
      package name or version holds a space. */
  lemma SpecsReadBack(pm: PackageManager, deps: seq<Dependency>)
    requires deps != []
    requires forall k :: 0 <= k < |deps| ==> ' ' !in deps[k].package && ' ' !in deps[k].version
    ensures Split(GetInstallCommand(pm, deps)[|Prefix(pm)| + 1..], ' ') == Specs(deps)
  {
    var specs := Specs(deps);
    forall k | 0 <= k < |specs| ensures ' ' !in specs[k] {
      SpecHasNoSpace(deps[k]);
    }
    SplitOfJoin(specs, ' ');
    assert GetInstallCommand(pm, deps)[|Prefix(pm)| + 1..] == Join(specs, [' ']);
  }

  lemma SpecHasNoSpace(d: Dependency)
    requires ' ' !in d.package && ' ' !in d.version
    ensures ' ' !in Spec(d)
  {
    if d.version != "" {
      var s := Spec(d);
      forall k | 0 <= k < |s| ensures s[k] != ' ' {
        if k < |d.package| {
          assert s[k] == d.package[k];
        } else if k > |d.package| {
          assert s[k] == d.version[k - |d.package| - 1];
        }
      }
    }
  }
}
