/** The renderer argument of the command line, `name@version`: the text before the
    first `@` is the name, the text between the first and a second `@` is the
    version, and anything after a second `@` is dropped. */
module RendererArg {
  import opened Wrappers
  import opened Strings
  import opened StringFacts

  /** A parsed renderer argument; `version` is `null` when there is no `@`. */
  datatype ParsedRenderer = ParsedRenderer(name: string, version: Option<string>)

  /** `const [name, version] = input.split("@")`, with a missing version as `null`. */
  function ParseRenderer(input: string): (r: ParsedRenderer)
    ensures '@' !in r.name
    ensures r.version.None? <==> '@' !in input
    ensures r.version.Some? ==> '@' !in r.version.value
  {
    var parts := Split(input, '@');
    ParsedRenderer(parts[0], if |parts| >= 2 then Some(parts[1]) else None)
  }

  /** Without `@`, the whole input is the name and there is no version. */
  lemma NameOnly(name: string)
    requires '@' !in name
    ensures ParseRenderer(name) == ParsedRenderer(name, None)
  {
  }

  /** `name@version` reads back as its two parts; a trailing `@` gives the empty
      version, not `null`. */
  lemma NameAndVersion(name: string, version: string)
    requires '@' !in name && '@' !in version
    ensures ParseRenderer(name + "@" + version) == ParsedRenderer(name, Some(version))
  {
    SplitAfterFirst(name, version, '@');
  }

  /** Whatever follows a second `@` is dropped. */
  lemma ExtraPartsDropped(name: string, version: string, rest: string)
    requires '@' !in name && '@' !in version
    ensures ParseRenderer(name + "@" + version + "@" + rest) == ParsedRenderer(name, Some(version))
  {
    var tail := version + "@" + rest;
    assert name + "@" + version + "@" + rest == name + ['@'] + tail;
    SplitAfterFirst(name, tail, '@');
    assert tail == version + ['@'] + rest;
    SplitAfterFirst(version, rest, '@');
  }

  /** The name is the text before the first `@`; with a version, the input
      continues with `@` and the version. */
  lemma ParsedPartsArePrefix(input: string)
    ensures var r := ParseRenderer(input);
            r.version.None? ==> r.name == input
    ensures var r := ParseRenderer(input);
            r.version.Some? ==> |r.name| < |input| && input[..|r.name| + 1] == r.name + "@"
  {
    if '@' in input {
      var i := IndexOf(input, '@');
      assert input == input[..i] + ['@'] + input[i + 1..];
      SplitAfterFirst(input[..i], input[i + 1..], '@');
    }
  }
}
