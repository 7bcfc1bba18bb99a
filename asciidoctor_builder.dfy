/**
 * The converter command builder used by the generator. Attributes and
 * plugins are appended in call order; adding the diagram plugin also points
 * its output directory at the destination.
 */
module Builder {
  import CommandLine

  const DiagramPlugin := "asciidoctor-diagram"

  function OutdirAttr(dest: string): string {
    "outdir=" + dest
  }

  class AsciidoctorBuilder {
    const inputFile: string
    const destinationDir: string
    var attrs: seq<string>
    var plugins: seq<string>

    constructor (inputFile: string, destinationDir: string)
      ensures this.inputFile == inputFile && this.destinationDir == destinationDir
      ensures attrs == [] && plugins == []
    {
      this.inputFile := inputFile;
      this.destinationDir := destinationDir;
      attrs := [];
      plugins := [];
    }

    method Attr(attr: string)
      modifies this
      ensures attrs == old(attrs) + [attr]
      ensures plugins == old(plugins)
    {
      attrs := attrs + [attr];
    }

    /** Every plugin is recorded; the diagram plugin also adds `outdir=<destination>`. */
    method Plugin(plugin: string)
      modifies this
      ensures plugins == old(plugins) + [plugin]
      ensures plugin == DiagramPlugin ==> attrs == old(attrs) + [OutdirAttr(destinationDir)]
      ensures plugin != DiagramPlugin ==> attrs == old(attrs)
    {
      if plugin == DiagramPlugin {
        attrs := attrs + [OutdirAttr(destinationDir)];
      }
      plugins := plugins + [plugin];
    }

    /** The argument vector of `build`; the builder itself is left as it was. */
    method Build() returns (argv: seq<string>)
      ensures argv == CommandLine.Argv(inputFile, destinationDir, attrs, plugins)
      ensures |argv| == 5 + 2 * |attrs| + 2 * |plugins|
    {
      argv := CommandLine.Assemble(inputFile, destinationDir, attrs, plugins);
      CommandLine.ArgvLayout(inputFile, destinationDir, attrs, plugins);
    }
  }
}
