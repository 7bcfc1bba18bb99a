/**
 * The older converter command builder. `attr` and `plugin` append without
 * conditions; `enable_toc` and `enable_diagram` append fixed options.
 */
module Converter {
  import CommandLine

  const TocAttr := "toc=1"
  const DiagramPlugin := "asciidoctor-diagram"

  function OutdirAttr(dest: string): string {
    "outdir=" + dest
  }

  class Asciidoctor {
    const inputFile: string
    const destinationDir: string
    var attrs: seq<string>
    var plugins: seq<string>

    constructor (inputFile: string, destinationDir: string)
      ensures this.inputFile == inputFile && this.destinationDir == destinationDir
      ensures attrs == [] && plugins == []
    {
      this.inputFile := inputFile;
      this.destinationDir := destinationDir;
      attrs := [];
      plugins := [];
    }

    method Attr(attr: string)
      modifies this
      ensures attrs == old(attrs) + [attr]
      ensures plugins == old(plugins)
    {
      attrs := attrs + [attr];
    }

    method Plugin(plugin: string)
      modifies this
      ensures plugins == old(plugins) + [plugin]
      ensures attrs == old(attrs)
    {
      plugins := plugins + [plugin];
    }

    method EnableToc()
      modifies this
      ensures attrs == old(attrs) + [TocAttr]
      ensures plugins == old(plugins)
    {
      attrs := attrs + [TocAttr];
    }

    method EnableDiagram()
      modifies this
      ensures attrs == old(attrs) + [OutdirAttr(destinationDir)]
      ensures plugins == old(plugins) + [DiagramPlugin]
    {
      attrs := attrs + [OutdirAttr(destinationDir)];
      plugins := plugins + [DiagramPlugin];
    }

    method Build() returns (argv: seq<string>)
      ensures argv == CommandLine.Argv(inputFile, destinationDir, attrs, plugins)
      ensures |argv| == 5 + 2 * |attrs| + 2 * |plugins|
    {
      argv := CommandLine.Assemble(inputFile, destinationDir, attrs, plugins);
      CommandLine.ArgvLayout(inputFile, destinationDir, attrs, plugins);
    }
  }
}
