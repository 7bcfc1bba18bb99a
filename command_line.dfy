/**
 * The argument vector both converter builders pass to `asciidoctor`:
 * the input file, `-D <destination> -o -`, then `-a <attr>` for each
 * attribute and `-r <plugin>` for each plugin, in the order they were added.
 */
module CommandLine {
  const AttrFlag := "-a"
  const RequireFlag := "-r"

  /** `flag x` for every x, in order. */
  function Options(flag: string, xs: seq<string>): (r: seq<string>)
    ensures |r| == 2 * |xs|
    ensures forall i :: 0 <= i < |xs| ==> r[2 * i] == flag && r[2 * i + 1] == xs[i]
    decreases |xs|
  {
    if xs == [] then []
    else Options(flag, xs[..|xs| - 1]) + [flag, xs[|xs| - 1]]
  }

  function Argv(input: string, dest: string, attrs: seq<string>, plugins: seq<string>): seq<string> {
    [input, "-D", dest, "-o", "-"] + Options(AttrFlag, attrs) + Options(RequireFlag, plugins)
  }

  /** Where everything sits in the argument vector. */
  lemma ArgvLayout(input: string, dest: string, attrs: seq<string>, plugins: seq<string>)
    ensures var argv := Argv(input, dest, attrs, plugins);
      && |argv| == 5 + 2 * |attrs| + 2 * |plugins|
      && argv[..5] == [input, "-D", dest, "-o", "-"]
      && (forall i :: 0 <= i < |attrs| ==> argv[5 + 2 * i] == AttrFlag && argv[6 + 2 * i] == attrs[i])
      && (forall j :: 0 <= j < |plugins| ==>
            argv[5 + 2 * |attrs| + 2 * j] == RequireFlag && argv[6 + 2 * |attrs| + 2 * j] == plugins[j])
  {
    var argv := Argv(input, dest, attrs, plugins);
    var head := [input, "-D", dest, "-o", "-"];
    var a, p := Options(AttrFlag, attrs), Options(RequireFlag, plugins);
    assert argv == head + a + p;
    forall i | 0 <= i < |attrs|
      ensures argv[5 + 2 * i] == AttrFlag && argv[6 + 2 * i] == attrs[i]
    {
      assert argv[5 + 2 * i] == a[2 * i];
      assert argv[6 + 2 * i] == a[2 * i + 1];
    }
    forall j | 0 <= j < |plugins|
      ensures argv[5 + 2 * |attrs| + 2 * j] == RequireFlag && argv[6 + 2 * |attrs| + 2 * j] == plugins[j]
    {
      assert argv[5 + 2 * |attrs| + 2 * j] == p[2 * j];
      assert argv[6 + 2 * |attrs| + 2 * j] == p[2 * j + 1];
    }
  }

  /** The argument vector is one-to-one: equal vectors come from equal builders. */
  lemma ArgvInjective(input: string, dest: string, attrs: seq<string>, plugins: seq<string>,
                      input': string, dest': string, attrs': seq<string>, plugins': seq<string>)
    requires |attrs| == |attrs'|
    requires Argv(input, dest, attrs, plugins) == Argv(input', dest', attrs', plugins')
    ensures input == input' && dest == dest' && attrs == attrs' && plugins == plugins'
  {
    ArgvLayout(input, dest, attrs, plugins);
    ArgvLayout(input', dest', attrs', plugins');
    var argv := Argv(input, dest, attrs, plugins);
    assert argv[0] == input && argv[0] == input';
    assert argv[2] == dest && argv[2] == dest';
    assert |plugins| == |plugins'|;
    forall i | 0 <= i < |attrs|
      ensures attrs[i] == attrs'[i]
    {
      assert argv[6 + 2 * i] == attrs[i];
    }
    forall j | 0 <= j < |plugins|
      ensures plugins[j] == plugins'[j]
    {
      assert argv[6 + 2 * |attrs| + 2 * j] == plugins[j];
    }
  }

  /** `build`'s two loops over the attributes and the plugins. */
  method Assemble(input: string, dest: string, attrs: seq<string>, plugins: seq<string>) returns (argv: seq<string>)
    ensures argv == Argv(input, dest, attrs, plugins)
  {
    argv := [input, "-D", dest, "-o", "-"];
    var i := 0;
    while i < |attrs|
      invariant 0 <= i <= |attrs|
      invariant argv == [input, "-D", dest, "-o", "-"] + Options(AttrFlag, attrs[..i])
    {
      assert attrs[..i + 1][..i] == attrs[..i];
      argv := argv + [AttrFlag, attrs[i]];
      i := i + 1;
    }
    assert attrs[..i] == attrs;
    var j := 0;
    while j < |plugins|
      invariant 0 <= j <= |plugins|
      invariant argv == [input, "-D", dest, "-o", "-"] + Options(AttrFlag, attrs) + Options(RequireFlag, plugins[..j])
    {
      assert plugins[..j + 1][..j] == plugins[..j];
      argv := argv + [RequireFlag, plugins[j]];
      j := j + 1;
    }
    assert plugins[..j] == plugins;
  }
}
